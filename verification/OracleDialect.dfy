/** Numbering of placeholders and naming of arguments (ingestor_orchestrator/oracle-repositories/dialect.go). */
module OracleDialect {
  import opened Common
  import opened OracleMerge
  import opened OracleText
  import opened OracleTranslation

  // ----- Arguments -----

  datatype Argument = Status(name: string) | Boolean(flag: bool) | Text(content: string) | Other(id: int)

  datatype Bound = Plain(text: string) | Clob(text: string) | Number(value: int) | Unchanged(id: int)

  function BindName(k: nat): string { "p" + Decimal(k + 1) }

  function Reference(k: nat): string { ":" + BindName(k) }

  lemma FirstNames()
    ensures BindName(0) == "p1" && Reference(0) == ":p1" && BindName(1) == "p2" && Reference(9) == ":p10"
  {
    assert Decimal(1) == "1" && Decimal(2) == "2" && Decimal(10) == "10";
  }

  lemma NamesDiffer(i: nat, j: nat)
    requires BindName(i) == BindName(j)
    ensures i == j
  {
    assert BindName(i)[1..] == Decimal(i + 1) && BindName(j)[1..] == Decimal(j + 1);
    DecimalInjective(i + 1, j + 1);
  }

  /** Length of a text in bytes, encoded as UTF-8 (RFC 3629, section 3). */
  function ByteLength(s: string): nat {
    if s == [] then 0
    else
      var c := s[|s| - 1] as int;
      ByteLength(s[..|s| - 1]) + if c < 0x80 then 1 else if c < 0x800 then 2 else if c < 0x1_0000 then 3 else 4
  }

  /** The bytes of one character. */
  function Encoded(c: int): seq<int>
    requires 0 <= c
  {
    if c < 0x80 then [c]
    else if c < 0x800 then [0xC0 + c / 64, 0x80 + c % 64]
    else if c < 0x1_0000 then [0xE0 + c / 4096, 0x80 + c / 64 % 64, 0x80 + c % 64]
    else [0xF0 + c / 262144, 0x80 + c / 4096 % 64, 0x80 + c / 64 % 64, 0x80 + c % 64]
  }

  function EncodedAll(s: string): seq<int> {
    if s == [] then [] else EncodedAll(s[..|s| - 1]) + Encoded(s[|s| - 1] as int)
  }

  lemma {:induction false} BytesCounted(s: string)
    ensures ByteLength(s) == |EncodedAll(s)|
  {
    if s != [] { BytesCounted(s[..|s| - 1]); }
  }

  /** A status is bound as its text, a flag as a number and a long text as a large object. */
  predicate Stands(a: Argument, b: Bound) {
    match a
    case Status(n) => b == (if ByteLength(n) > 4000 then Clob(n) else Plain(n))
    case Boolean(f) => b == Number(if f then 1 else 0)
    case Text(t) => b == (if ByteLength(t) > 4000 then Clob(t) else Plain(t))
    case Other(i) => b == Unchanged(i)
  }

  method BindArgs(args: seq<Argument>) returns (bound: seq<(string, Bound)>)
    ensures |bound| == |args|
    ensures forall i :: 0 <= i < |args| ==> bound[i].0 == BindName(i) && Stands(args[i], bound[i].1)
    ensures forall i, j :: 0 <= i < j < |args| ==> bound[i].0 != bound[j].0
  {
    bound := [];
    var i := 0;
    while i < |args|
      invariant 0 <= i <= |args| && |bound| == i
      invariant forall j :: 0 <= j < i ==> bound[j].0 == BindName(j) && Stands(args[j], bound[j].1)
    {
      var v := args[i];
      if v.Status? {
        v := Text(v.name);
      }
      var value;
      if v.Boolean? {
        value := Number(if v.flag then 1 else 0);
      } else if v.Text? {
        value := if ByteLength(v.content) > 4000 then Clob(v.content) else Plain(v.content);
      } else {
        value := Unchanged(v.id);
      }
      bound := bound + [("p" + Decimal(i + 1), value)];
      i := i + 1;
    }
    forall i, j | 0 <= i < j < |args| ensures bound[i].0 != bound[j].0 {
      if bound[i].0 == bound[j].0 { NamesDiffer(i, j); }
    }
  }

  // ----- Placeholders -----

  function Toggle(c: char, quoted: bool): bool { if c == '\'' then !quoted else quoted }

  predicate IsMark(c: char, quoted: bool) { c == '?' && !quoted }

  function Count(c: char, quoted: bool): nat { if IsMark(c, quoted) then 1 else 0 }

  function Written(c: char, quoted: bool, k: nat, name: nat -> string): string { if IsMark(c, quoted) then name(k) else [c] }

  /** The k-th unquoted question mark becomes the k-th text. */
  function Renumber(s: string, quoted: bool, k: nat, name: nat -> string): string
    decreases |s|
  {
    if s == [] then []
    else Written(s[0], quoted, k, name) + Renumber(s[1..], Toggle(s[0], quoted), k + Count(s[0], quoted), name)
  }

  function QuotedAfter(s: string, quoted: bool): bool
    decreases |s|
  {
    if s == [] then quoted else QuotedAfter(s[1..], Toggle(s[0], quoted))
  }

  function Marks(s: string, quoted: bool): nat
    decreases |s|
  {
    if s == [] then 0 else Count(s[0], quoted) + Marks(s[1..], Toggle(s[0], quoted))
  }

  /** One character more is written. */
  lemma NumberNext(b: string, query: string, i: nat, quoted: bool, k: nat, name: nat -> string)
    requires i < |query|
    ensures b + Renumber(query[i..], quoted, k, name) ==
            b + Written(query[i], quoted, k, name) + Renumber(query[i + 1..], Toggle(query[i], quoted), k + Count(query[i], quoted), name)
  {
    assert query[i..][0] == query[i] && query[i..][1..] == query[i + 1..];
    Regroup(b, Written(query[i], quoted, k, name), Renumber(query[i + 1..], Toggle(query[i], quoted), k + Count(query[i], quoted), name));
  }

  lemma Regroup(a: string, b: string, c: string)
    ensures a + (b + c) == a + b + c
  {
  }

  /** A doubled quote inside a text is written as it is, and the text goes on. */
  lemma NumberPair(b: string, query: string, i: nat, k: nat, name: nat -> string)
    requires i + 1 < |query| && query[i] == query[i + 1] == '\''
    ensures b + Renumber(query[i..], true, k, name) == b + "''" + Renumber(query[i + 2..], true, k, name)
  {
    NumberNext(b, query, i, true, k, name);
    NumberNext(b + ['\''], query, i + 1, false, k, name);
    assert b + ['\''] + ['\''] == b + "''";
  }

  /** The loop skips over a doubled quote inside a text; the toggling of the specification passes over it alike. */
  method NumberPlaceholders(query: string) returns (b: string)
    ensures b == Renumber(query, false, 0, Reference)
  {
    b := "";
    var quoted, bind := false, 0;
    var i := 0;
    assert query[0..] == query;
    while i < |query|
      invariant 0 <= i <= |query| && 0 <= bind
      invariant b + Renumber(query[i..], quoted, bind, Reference) == Renumber(query, false, 0, Reference)
    {
      var c := query[i];
      if c == '\'' {
        if quoted && i + 1 < |query| && query[i + 1] == '\'' {
          NumberPair(b, query, i, bind, Reference);
          b := b + "''";
          i := i + 2;
          continue;
        }
      }
      NumberNext(b, query, i, quoted, bind, Reference);
      if c == '\'' {
        quoted := !quoted;
      }
      if c == '?' && !quoted {
        bind := bind + 1;
        ReferenceText(bind);
        b := b + (":p" + Decimal(bind));
      } else {
        b := b + [c];
      }
      i := i + 1;
    }
    assert query[i..] == [];
  }

  lemma ReferenceText(bind: nat)
    requires bind > 0
    ensures Reference(bind - 1) == ":p" + Decimal(bind)
  {
  }

  lemma {:induction false} MarksConcat(a: string, b: string, quoted: bool)
    ensures QuotedAfter(a + b, quoted) == QuotedAfter(b, QuotedAfter(a, quoted))
    ensures Marks(a + b, quoted) == Marks(a, quoted) + Marks(b, QuotedAfter(a, quoted))
    decreases |a|
  {
    if a == [] {
      assert a + b == b;
    } else {
      assert (a + b)[1..] == a[1..] + b;
      MarksConcat(a[1..], b, Toggle(a[0], quoted));
    }
  }

  lemma {:induction false} RenumberBefore(a: string, b: string, quoted: bool, k: nat, name: nat -> string, right: string)
    requires right == Renumber(b, QuotedAfter(a, quoted), k + Marks(a, quoted), name)
    ensures Renumber(a + b, quoted, k, name) == Renumber(a, quoted, k, name) + right
    decreases |a|
  {
    if a == [] {
      assert a + b == b;
    } else {
      var inner, next := Toggle(a[0], quoted), k + Count(a[0], quoted);
      var tail := a[1..];
      var whole, joined := a + b, tail + b;
      assert whole[1..] == joined;
      RenumberBefore(tail, b, inner, next, name, right);
      ConcatStep(whole, joined, a, tail, quoted, k, name, right);
    }
  }

  /** Numbering goes through a concatenation from left to right. */
  lemma RenumberConcat(a: string, b: string, quoted: bool, k: nat, name: nat -> string)
    ensures Renumber(a + b, quoted, k, name) == Renumber(a, quoted, k, name) + Renumber(b, QuotedAfter(a, quoted), k + Marks(a, quoted), name)
  {
    RenumberBefore(a, b, quoted, k, name, Renumber(b, QuotedAfter(a, quoted), k + Marks(a, quoted), name));
  }

  /** What follows stays behind when the first character is put in front again. */
  lemma ConcatStep(whole: string, joined: string, a: string, tail: string, quoted: bool, k: nat, name: nat -> string, right: string)
    requires whole != [] && a != [] && whole[0] == a[0] && whole[1..] == joined && a[1..] == tail
    requires var inner, next := Toggle(a[0], quoted), k + Count(a[0], quoted);
             Renumber(joined, inner, next, name) == Renumber(tail, inner, next, name) + right
    ensures Renumber(whole, quoted, k, name) == Renumber(a, quoted, k, name) + right
  {
    var inner, next := Toggle(a[0], quoted), k + Count(a[0], quoted);
    Regroup(Written(a[0], quoted, k, name), Renumber(tail, inner, next, name), right);
  }

  /** An unquoted question mark is given the name of the argument at its place. */
  lemma PlaceholderName(left: string, right: string, name: nat -> string)
    requires !QuotedAfter(left, false)
    ensures var k := Marks(left, false);
            Renumber(left + ("?" + right), false, 0, name) == Renumber(left, false, 0, name) + (name(k) + Renumber(right, false, k + 1, name))
  {
    RenumberConcat(left, "?" + right, false, 0, name);
  }

  lemma {:induction false} QuotedStays(s: string, k: nat, name: nat -> string)
    requires '\'' !in s
    ensures Renumber(s, true, k, name) == s && QuotedAfter(s, true) && Marks(s, true) == 0
    decreases |s|
  {
    if s != [] {
      QuotedStays(s[1..], k, name);
      assert [s[0]] + s[1..] == s;
    }
  }

  /** A text in quotes is left alone, with the question marks in it, and the numbering goes on behind it. */
  lemma TextKept(left: string, text: string, right: string, name: nat -> string)
    requires !QuotedAfter(left, false) && '\'' !in text
    ensures var k := Marks(left, false);
            Renumber(left + ("'" + (text + ("'" + right))), false, 0, name) ==
            Renumber(left, false, 0, name) + ("'" + (text + ("'" + Renumber(right, false, k, name))))
  {
    var k := Marks(left, false);
    RenumberConcat(left, "'" + (text + ("'" + right)), false, 0, name);
    assert ("'" + (text + ("'" + right)))[1..] == text + ("'" + right) && ("'" + right)[1..] == right;
    RenumberConcat(text, "'" + right, true, k, name);
    QuotedStays(text, k, name);
  }

  // ----- Numbering and translating -----

  predicate Inert(s: string) { forall i :: 0 <= i < |s| ==> s[i] != '?' && s[i] != '\'' }

  lemma {:induction false} InertStays(s: string, k: nat, name: nat -> string)
    requires Inert(s)
    ensures Renumber(s, false, k, name) == s && !QuotedAfter(s, false) && Marks(s, false) == 0
    decreases |s|
  {
    if s != [] {
      InertStays(s[1..], k, name);
      assert [s[0]] + s[1..] == s;
    }
  }

  predicate Closed(s: string) { !QuotedAfter(s, false) }

  lemma {:induction false} UnbrokenClosed(s: string, at: Scan)
    requires Unbroken(s, at)
    ensures !QuotedAfter(s, at.quoted)
    decreases |s|
  {
    if s != [] { UnbrokenClosed(s[1..], Step(at, s[0])); }
  }

  /** Closed texts one after the other. */
  lemma ClosedConcat(a: string, b: string, k: nat, name: nat -> string)
    requires Closed(a)
    ensures Renumber(a + b, false, k, name) == Renumber(a, false, k, name) + Renumber(b, false, k + Marks(a, false), name)
    ensures Marks(a + b, false) == Marks(a, false) + Marks(b, false)
    ensures Closed(a + b) <==> Closed(b)
  {
    RenumberConcat(a, b, false, k, name);
    MarksConcat(a, b, false);
  }

  lemma InertBefore(a: string, b: string, k: nat, name: nat -> string)
    requires Inert(a)
    ensures Renumber(a + b, false, k, name) == a + Renumber(b, false, k, name)
    ensures Marks(a + b, false) == Marks(b, false) && (Closed(a + b) <==> Closed(b))
  {
    InertStays(a, k, name);
    ClosedConcat(a, b, k, name);
  }

  lemma InertAfter(a: string, b: string, k: nat, name: nat -> string)
    requires Closed(a) && Inert(b)
    ensures Renumber(a + b, false, k, name) == Renumber(a, false, k, name) + b
    ensures Marks(a + b, false) == Marks(a, false) && Closed(a + b)
  {
    var next := k + Marks(a, false);
    ClosedConcat(a, b, k, name);
    InertStays(b, next, name);
  }

  /** Texts numbered one after the other, starting at the k-th name. */
  function NumberedList(parts: seq<string>, k: nat, name: nat -> string): (r: seq<string>)
    ensures |r| == |parts|
  {
    if parts == [] then [] else [Renumber(parts[0], false, k, name)] + NumberedList(parts[1..], k + Marks(parts[0], false), name)
  }

  function AllMarks(parts: seq<string>): nat {
    if parts == [] then 0 else Marks(parts[0], false) + AllMarks(parts[1..])
  }

  lemma {:induction false} JoinNumbered(parts: seq<string>, separator: string, k: nat, name: nat -> string)
    requires Inert(separator) && forall i :: 0 <= i < |parts| ==> Closed(parts[i])
    ensures Renumber(Join(parts, separator), false, k, name) == Join(NumberedList(parts, k, name), separator)
    ensures Marks(Join(parts, separator), false) == AllMarks(parts) && Closed(Join(parts, separator))
    decreases |parts|
  {
    if |parts| == 1 {
      assert NumberedList(parts, k, name) == [Renumber(parts[0], false, k, name)];
    } else if |parts| > 1 {
      var tail := Join(parts[1..], separator);
      var next := k + Marks(parts[0], false);
      JoinNumbered(parts[1..], separator, next, name);
      ThreeNumbered(parts[0], separator, tail, k, name);
      assert NumberedList(parts, k, name)[1..] == NumberedList(parts[1..], next, name);
    }
  }

  lemma ThreeNumbered(a: string, separator: string, b: string, k: nat, name: nat -> string)
    requires Closed(a) && Inert(separator)
    ensures Renumber(a + separator + b, false, k, name) == Renumber(a, false, k, name) + separator + Renumber(b, false, k + Marks(a, false), name)
    ensures Marks(a + separator + b, false) == Marks(a, false) + Marks(b, false) && (Closed(a + separator + b) <==> Closed(b))
  {
    InertAfter(a, separator, k, name);
    ClosedConcat(a + separator, b, k, name);
  }
}
