/** Field identifiers and unique names of an output schema
    (ckan-ingestor-rs/ckan-ingestor-lib/src/parquet_output.rs, `schema_with_field_ids`). */
module FieldIds {
  import opened Common

  /** List, LargeList, FixedSizeList, ListView, LargeListView and Map all hold one child. */
  datatype Wrapper = List | LargeList | FixedSizeList(size: int) | ListView | LargeListView | MapOf(sorted: bool)

  datatype DataType = Null | Utf8 | Leaf(description: string) | Wrapped(wrapper: Wrapper, child: Field) | Struct(children: seq<Field>)

  /** `fieldId` is the "PARQUET:field_id" entry, `metadata` the others. */
  datatype Field = Field(name: string, dataType: DataType, nullable: bool, fieldId: Option<nat>, metadata: map<string, string>)

  /** Case folding of one character and the white-space test. */
  datatype Alphabet = Alphabet(lower: char -> string, blank: char -> bool)

  ghost predicate Sane(a: Alphabet) {
    && (forall c :: '0' <= c <= '9' || c == '_' ==> a.lower(c) == [c])
    && (forall c :: '0' <= c <= '9' || c in "column_" ==> !a.blank(c))
  }

  function Lower(a: Alphabet, s: string): string {
    if s == [] then [] else a.lower(s[0]) + Lower(a, s[1..])
  }

  /** `trim().is_empty()` */
  predicate Blank(a: Alphabet, s: string) { forall i :: 0 <= i < |s| ==> a.blank(s[i]) }

  // ----- Names -----

  function BaseName(a: Alphabet, original: string, index: nat): string {
    if Blank(a, original) then "column_" + Decimal(index + 1) else original
  }

  /** The `k`-th name tried: the base itself, then with `__2`, `__3`, … appended. */
  function Candidate(base: string, k: nat): string {
    if k == 0 then base else base + Suffix(k + 1)
  }

  function Suffix(n: nat): (s: string)
    ensures forall i :: 0 <= i < |s| ==> '0' <= s[i] <= '9' || s[i] == '_'
    ensures s != []
  {
    "__" + Decimal(n)
  }

  ghost predicate FirstFree(a: Alphabet, base: string, used: set<string>, k: nat) {
    && Lower(a, Candidate(base, k)) !in used
    && forall j: nat :: j < k ==> Lower(a, Candidate(base, j)) in used
  }

  ghost function LowerNames(a: Alphabet, fields: seq<Field>): set<string> {
    set i | 0 <= i < |fields| :: Lower(a, fields[i].name)
  }

  /** `name` is the first free candidate for the field at this position. */
  ghost predicate Named(a: Alphabet, before: seq<Field>, original: string, name: string) {
    var base := BaseName(a, original, |before|);
    exists k: nat :: FirstFree(a, base, LowerNames(a, before), k) && name == Candidate(base, k)
  }

  /** The name in letters: the given one, or `column_` and the place of the field if it is blank; if that is used, the first
      free one of `…__2`, `…__3` and so on. */
  lemma NameExact(a: Alphabet, before: seq<Field>, original: string, name: string)
    requires Named(a, before, original, name)
    ensures var base := if Blank(a, original) then "column_" + Decimal(|before| + 1) else original;
            var used := set i | 0 <= i < |before| :: Lower(a, before[i].name);
            if Lower(a, base) !in used then name == base
            else exists n: nat :: n >= 2 && name == base + "__" + Decimal(n) && Lower(a, name) !in used
                                  && forall m: nat :: 2 <= m < n ==> Lower(a, base + "__" + Decimal(m)) in used
  {
    var base := if Blank(a, original) then "column_" + Decimal(|before| + 1) else original;
    var used := LowerNames(a, before);
    var k: nat :| FirstFree(a, base, used, k) && name == Candidate(base, k);
    if k > 0 {
      assert Candidate(base, 0) == base;
      forall j: nat ensures base + "__" + Decimal(j) == base + Suffix(j) {
        assert Suffix(j) == "__" + Decimal(j);
        assert base + "__" + Decimal(j) == base + ("__" + Decimal(j));
      }
      forall m: nat | 2 <= m < k + 1 ensures Lower(a, base + "__" + Decimal(m)) in used {
        assert Candidate(base, m - 1) == base + Suffix(m);
      }
    }
  }

  lemma {:induction false} LowerConcat(a: Alphabet, s: string, t: string)
    ensures Lower(a, s + t) == Lower(a, s) + Lower(a, t)
  {
    if s == [] {
      assert s + t == t;
    } else {
      assert (s + t)[1..] == s[1..] + t;
      LowerConcat(a, s[1..], t);
    }
  }

  lemma {:induction false} LowerOfSuffix(a: Alphabet, s: string)
    requires Sane(a) && forall i :: 0 <= i < |s| ==> '0' <= s[i] <= '9' || s[i] == '_'
    ensures Lower(a, s) == s
  {
    if s != [] { LowerOfSuffix(a, s[1..]); }
  }

  lemma CandidateLower(a: Alphabet, base: string, k: nat)
    requires Sane(a) && k > 0
    ensures Lower(a, Candidate(base, k)) == Lower(a, base) + Suffix(k + 1)
  {
    LowerOfSuffix(a, Suffix(k + 1));
    LowerConcat(a, base, Suffix(k + 1));
  }

  lemma SuffixInjective(m: nat, n: nat)
    requires Suffix(m) == Suffix(n)
    ensures m == n
  {
    assert Suffix(m)[2..] == Decimal(m) && Suffix(n)[2..] == Decimal(n);
    DecimalInjective(m, n);
  }

  lemma SameTail(prefix: string, s: string, t: string)
    requires prefix + s == prefix + t
    ensures s == t
  {
    assert (prefix + s)[|prefix|..] == s && (prefix + t)[|prefix|..] == t;
  }

  /** Different attempts never collide, even ignoring case. */
  lemma CandidatesDiffer(a: Alphabet, base: string, j: nat, k: nat)
    requires Sane(a) && j < k
    ensures Lower(a, Candidate(base, j)) != Lower(a, Candidate(base, k))
  {
    CandidateLower(a, base, k);
    if j > 0 {
      CandidateLower(a, base, j);
      if Lower(a, Candidate(base, j)) == Lower(a, Candidate(base, k)) {
        SameTail(Lower(a, base), Suffix(j + 1), Suffix(k + 1));
        SuffixInjective(j + 1, k + 1);
      }
    }
  }

  /** The case-folded candidates, by attempt. */
  ghost function Attempts(a: Alphabet, base: string): nat -> string {
    (k: nat) => Lower(a, Candidate(base, k))
  }

  lemma AttemptsDiffer(a: Alphabet, base: string)
    requires Sane(a)
    ensures AllDifferent(Attempts(a, base))
  {
    forall i: nat, j: nat | i < j ensures Attempts(a, base)(i) != Attempts(a, base)(j) { CandidatesDiffer(a, base, i, j); }
  }

  lemma CandidateNotBlank(a: Alphabet, original: string, index: nat, k: nat)
    requires Sane(a)
    ensures !Blank(a, Candidate(BaseName(a, original, index), k))
  {
    var base := BaseName(a, original, index);
    assert !Blank(a, base) by { if Blank(a, original) { assert base[0] == 'c'; } }
    var i :| 0 <= i < |base| && !a.blank(base[i]);
    assert Candidate(base, k)[i] == base[i];
  }

  /** The search: it ends because every miss uses up another name, after at most one try more than there are names. */
  method UniqueName(a: Alphabet, base: string, used: set<string>) returns (candidate: string, ghost k: nat)
    requires Sane(a)
    ensures FirstFree(a, base, used, k) && candidate == Candidate(base, k) && k <= |used|
    ensures Lower(a, candidate) !in used && base <= candidate
  {
    ghost var names := Attempts(a, base);
    AttemptsDiffer(a, base);
    candidate, k := base, 0;
    var suffix := 2;
    while Lower(a, candidate) in used
      invariant suffix == k + 2 && candidate == Candidate(base, k)
      invariant Tried(names, k) <= used
      decreases used - Tried(names, k)
    {
      AnotherTried(names, used, k, Lower(a, candidate));
      candidate := base + Suffix(suffix);
      suffix := suffix + 1;
      k := k + 1;
    }
    SearchEnds(a, base, used, k);
  }

  lemma AnotherTried(names: nat -> string, used: set<string>, k: nat, name: string)
    requires AllDifferent(names) && Tried(names, k) <= used && name == names(k) && name in used
    ensures Tried(names, k + 1) <= used && used - Tried(names, k + 1) < used - Tried(names, k)
  {
    TriedHolds(names, k);
    assert name in used - Tried(names, k);
  }

  lemma SearchEnds(a: Alphabet, base: string, used: set<string>, k: nat)
    requires Sane(a) && Tried(Attempts(a, base), k) <= used && Lower(a, Candidate(base, k)) !in used
    ensures FirstFree(a, base, used, k) && k <= |used|
  {
    var names := Attempts(a, base);
    AttemptsDiffer(a, base);
    TriedHolds(names, k);
    forall j: nat | j < k ensures Lower(a, Candidate(base, j)) in used { assert names(j) in Tried(names, k); }
    TriesBounded(names, k, used);
  }

  // ----- The specification: what may change, and the numbering -----

  function Size(f: Field): nat
    decreases f, 1
  {
    1 + match f.dataType
        case Wrapped(_, child) => Size(child)
        case Struct(children) => SizeAll(children)
        case _ => 0
  }

  function SizeAll(fields: seq<Field>): nat
    decreases fields, 0
  {
    if fields == [] then 0 else SizeAll(fields[..|fields| - 1]) + Size(fields[|fields| - 1])
  }

  /** `g` is `f` with only the type adjusted: empty columns become text, children are processed. */
  ghost predicate Adjusted(a: Alphabet, f: Field, g: Field)
    decreases f, 1
  {
    && g.name == f.name && g.nullable == f.nullable && g.metadata == f.metadata
    && match f.dataType
       case Null => g.dataType == Utf8
       case Wrapped(w, child) => g.dataType.Wrapped? && g.dataType.wrapper == w && Adjusted(a, child, g.dataType.child)
       case Struct(children) => g.dataType.Struct? && AdjustedAll(a, children, g.dataType.children)
       case _ => g.dataType == f.dataType
  }

  /** Siblings are adjusted one by one and renamed to their first free candidates. */
  ghost predicate AdjustedAll(a: Alphabet, fs: seq<Field>, gs: seq<Field>)
    decreases fs, 0
  {
    && |fs| == |gs|
    && (fs != [] ==>
          var n := |fs| - 1;
          && AdjustedAll(a, fs[..n], gs[..n])
          && Named(a, gs[..n], fs[n].name, gs[n].name)
          && Adjusted(a, fs[n], gs[n].(name := fs[n].name)))
  }

  /** Preorder numbers, the field itself getting `id`. */
  ghost predicate Numbered(f: Field, id: nat)
    decreases f, 1
  {
    && f.fieldId == Some(id)
    && match f.dataType
       case Wrapped(_, child) => Numbered(child, id + 1)
       case Struct(children) => NumberedAll(children, id + 1)
       case _ => true
  }

  ghost predicate NumberedAll(fields: seq<Field>, id: nat)
    decreases fields, 0
  {
    fields != [] ==>
      var n := |fields| - 1;
      NumberedAll(fields[..n], id) && Numbered(fields[n], id + SizeAll(fields[..n]))
  }

  // ----- The algorithm -----

  method Assign(a: Alphabet, field: Field, nextId: nat) returns (g: Field, next: nat)
    requires Sane(a)
    ensures Adjusted(a, field, g) && Numbered(g, nextId)
    ensures Size(g) == Size(field) && next == nextId + Size(field)
    decreases field, 1
  {
    next := nextId + 1;
    var dataType := field.dataType;
    match field.dataType {
      case Null => dataType := Utf8;
      case Wrapped(w, child) =>
        var c;
        c, next := Assign(a, child, next);
        dataType := Wrapped(w, c);
      case Struct(children) =>
        var cs;
        cs, next := AssignFields(a, children, next);
        dataType := Struct(cs);
      case _ =>
    }
    g := field.(dataType := dataType, fieldId := Some(nextId));
  }

  /** Gives an assigned field its name among its siblings. */
  method NameField(a: Alphabet, f: Field, field: Field, index: nat, ghost before: seq<Field>, used: set<string>, ghost id: nat) returns (g: Field)
    requires Sane(a) && used == LowerNames(a, before) && Adjusted(a, f, field) && Numbered(field, id)
    requires index == |before|
    ensures Adjusted(a, f, g.(name := f.name)) && Named(a, before, f.name, g.name)
    ensures Numbered(g, id) && Size(g) == Size(field)
  {
    var originalName := field.name;
    var baseName := if Blank(a, originalName) then "column_" + Decimal(index + 1) else originalName;
    var candidate, k := UniqueName(a, baseName, used);
    g := field;
    if candidate != originalName {
      g := field.(name := candidate);
    }
    assert g.(name := f.name) == field;
    assert FirstFree(a, BaseName(a, f.name, |before|), LowerNames(a, before), k) && g.name == Candidate(baseName, k);
  }

  /** Numbers a field and all below it, then names it among its siblings; the first ones are done already. */
  method NextField(a: Alphabet, f: Field, used: set<string>, nextId: nat, ghost fs: seq<Field>, gs: seq<Field>, ghost id: nat)
    returns (g: Field, next: nat)
    requires Sane(a) && Progress(a, fs, gs, id, used, nextId)
    ensures Progress(a, fs + [f], gs + [g], id, used + {Lower(a, g.name)}, next)
    decreases f, 2
  {
    var field;
    field, next := Assign(a, f, nextId);
    g := NameField(a, f, field, |gs|, gs, used, nextId);
    ProgressNext(a, fs, gs, f, g, id, used, next);
  }

  method AssignFields(a: Alphabet, fields: seq<Field>, nextId: nat) returns (gs: seq<Field>, next: nat)
    requires Sane(a)
    ensures AdjustedAll(a, fields, gs) && NumberedAll(gs, nextId)
    ensures SizeAll(gs) == SizeAll(fields) && next == nextId + SizeAll(fields)
    decreases fields, 0
  {
    var usedNames: set<string> := {};
    gs, next := [], nextId;
    assert fields[..0] == [];
    NothingDone(a, nextId);
    var index := 0;
    while index < |fields|
      invariant 0 <= index <= |fields| && |gs| == index
      invariant Progress(a, fields[..index], gs, nextId, usedNames, next)
    {
      var renamed;
      renamed, next := NextField(a, fields[index], usedNames, next, fields[..index], gs, nextId);
      assert fields[..index + 1] == fields[..index] + [fields[index]];
      usedNames := usedNames + {Lower(a, renamed.name)};
      gs := gs + [renamed];
      index := index + 1;
    }
    assert fields[..index] == fields;
  }

  lemma Extend(a: Alphabet, fs: seq<Field>, gs: seq<Field>, f: Field, g: Field, id: nat)
    requires AdjustedAll(a, fs, gs) && NumberedAll(gs, id)
    requires Adjusted(a, f, g.(name := f.name)) && Numbered(g, id + SizeAll(gs)) && Named(a, gs, f.name, g.name)
    ensures AdjustedAll(a, fs + [f], gs + [g]) && NumberedAll(gs + [g], id)
    ensures SizeAll(gs + [g]) == SizeAll(gs) + Size(g) && SizeAll(fs + [f]) == SizeAll(fs) + Size(f)
  {
    assert (fs + [f])[..|fs|] == fs && (gs + [g])[..|gs|] == gs;
  }

  lemma LowerNamesNext(a: Alphabet, gs: seq<Field>, g: Field)
    ensures LowerNames(a, gs + [g]) == LowerNames(a, gs) + {Lower(a, g.name)}
  {
    var all := gs + [g];
    assert all[|gs|] == g;
    forall x | x in LowerNames(a, gs) ensures x in LowerNames(a, all) {
      var i :| 0 <= i < |gs| && x == Lower(a, gs[i].name);
      assert all[i] == gs[i];
    }
  }

  /** The fields that are done, their numbers and the names in use. */
  ghost predicate Progress(a: Alphabet, fs: seq<Field>, gs: seq<Field>, id: nat, used: set<string>, next: nat) {
    && AdjustedAll(a, fs, gs) && NumberedAll(gs, id) && used == LowerNames(a, gs)
    && SizeAll(gs) == SizeAll(fs) && next == id + SizeAll(gs)
  }

  lemma NothingDone(a: Alphabet, id: nat)
    ensures Progress(a, [], [], id, {}, id)
  {
  }

  lemma ProgressNext(a: Alphabet, fs: seq<Field>, gs: seq<Field>, f: Field, g: Field, id: nat, used: set<string>, next: nat)
    requires next >= Size(f) && Progress(a, fs, gs, id, used, next - Size(f))
    requires Adjusted(a, f, g.(name := f.name)) && Numbered(g, next - Size(f)) && Named(a, gs, f.name, g.name) && Size(g) == Size(f)
    ensures Progress(a, fs + [f], gs + [g], id, used + {Lower(a, g.name)}, next)
  {
    Extend(a, fs, gs, f, g, id);
    LowerNamesNext(a, gs, g);
  }

  method SchemaWithFieldIds(a: Alphabet, fields: seq<Field>) returns (gs: seq<Field>)
    requires Sane(a)
    ensures AdjustedAll(a, fields, gs) && NumberedAll(gs, 1) && SizeAll(gs) == SizeAll(fields)
  {
    var next;
    gs, next := AssignFields(a, fields, 1);
  }

  // ----- What the result is like -----

  ghost predicate WellNamed(a: Alphabet, f: Field)
    decreases f, 1
  {
    match f.dataType
    case Null => false
    case Wrapped(_, child) => WellNamed(a, child)
    case Struct(children) => WellNamedAll(a, children)
    case _ => true
  }

  /** No empty type is left, and siblings have names that are not blank and differ ignoring case. */
  ghost predicate WellNamedAll(a: Alphabet, fields: seq<Field>)
    decreases fields, 0
  {
    fields != [] ==>
      var n := |fields| - 1;
      && WellNamedAll(a, fields[..n])
      && WellNamed(a, fields[n])
      && !Blank(a, fields[n].name)
      && Lower(a, fields[n].name) !in LowerNames(a, fields[..n])
  }

  lemma {:induction false} AdjustedIsWellNamed(a: Alphabet, f: Field, g: Field)
    requires Sane(a) && Adjusted(a, f, g)
    ensures WellNamed(a, g)
    decreases f, 1
  {
    match f.dataType
    case Wrapped(_, child) => AdjustedIsWellNamed(a, child, g.dataType.child);
    case Struct(children) => SiblingsAreWellNamed(a, children, g.dataType.children);
    case _ =>
  }

  lemma {:induction false} SiblingsAreWellNamed(a: Alphabet, fs: seq<Field>, gs: seq<Field>)
    requires Sane(a) && AdjustedAll(a, fs, gs)
    ensures WellNamedAll(a, gs)
    decreases fs, 0
  {
    if fs != [] {
      var n := |fs| - 1;
      SiblingsAreWellNamed(a, fs[..n], gs[..n]);
      AdjustedIsWellNamed(a, fs[n], gs[n].(name := fs[n].name));
      var base := BaseName(a, fs[n].name, n);
      var k: nat :| FirstFree(a, base, LowerNames(a, gs[..n]), k) && gs[n].name == Candidate(base, k);
      CandidateNotBlank(a, fs[n].name, n, k);
    }
  }

  lemma {:induction false} WellNamedDistinct(a: Alphabet, fields: seq<Field>, i: nat)
    requires WellNamedAll(a, fields) && i < |fields|
    ensures !Blank(a, fields[i].name) && forall j :: 0 <= j < |fields| && j != i ==> Lower(a, fields[j].name) != Lower(a, fields[i].name)
    decreases |fields|
  {
    var n := |fields| - 1;
    forall j | 0 <= j < n ensures Lower(a, fields[j].name) != Lower(a, fields[n].name) {
      assert fields[..n][j] == fields[j];
      assert Lower(a, fields[j].name) in LowerNames(a, fields[..n]);
    }
    if i < n {
      WellNamedDistinct(a, fields[..n], i);
      forall j | 0 <= j < n && j != i ensures Lower(a, fields[j].name) != Lower(a, fields[i].name) {
        assert fields[..n][j] == fields[j];
      }
    }
  }

  /** All identifiers, a field before its children. */
  function Ids(f: Field): seq<Option<nat>>
    decreases f, 1
  {
    [f.fieldId] + match f.dataType
                  case Wrapped(_, child) => Ids(child)
                  case Struct(children) => IdsAll(children)
                  case _ => []
  }

  function IdsAll(fields: seq<Field>): seq<Option<nat>>
    decreases fields, 0
  {
    if fields == [] then [] else IdsAll(fields[..|fields| - 1]) + Ids(fields[|fields| - 1])
  }

  function From(id: nat, count: nat): seq<Option<nat>> { seq(count, i requires 0 <= i < count => Some(id + i)) }

  lemma {:induction false} IdsOfNumbered(f: Field, id: nat)
    requires Numbered(f, id)
    ensures Ids(f) == From(id, Size(f))
    decreases f, 1
  {
    match f.dataType
    case Wrapped(_, child) =>
      IdsOfNumbered(child, id + 1);
      assert From(id, Size(f)) == [Some(id)] + From(id + 1, Size(child));
    case Struct(children) =>
      IdsOfSiblings(children, id + 1);
      assert From(id, Size(f)) == [Some(id)] + From(id + 1, SizeAll(children));
    case _ =>
  }

  lemma {:induction false} IdsOfSiblings(fields: seq<Field>, id: nat)
    requires NumberedAll(fields, id)
    ensures IdsAll(fields) == From(id, SizeAll(fields))
    decreases fields, 0
  {
    if fields != [] {
      var n := |fields| - 1;
      IdsOfSiblings(fields[..n], id);
      IdsOfNumbered(fields[n], id + SizeAll(fields[..n]));
      assert From(id, SizeAll(fields)) == From(id, SizeAll(fields[..n])) + From(id + SizeAll(fields[..n]), Size(fields[n]));
    }
  }

  /** The identifiers of a finished schema are exactly 1, 2, …, size in preorder, and its names are good. */
  lemma FinishedSchema(a: Alphabet, fields: seq<Field>, gs: seq<Field>)
    requires Sane(a) && AdjustedAll(a, fields, gs) && NumberedAll(gs, 1)
    ensures IdsAll(gs) == From(1, SizeAll(gs)) && WellNamedAll(a, gs)
  {
    IdsOfSiblings(gs, 1);
    SiblingsAreWellNamed(a, fields, gs);
  }

  // ----- Idempotence -----

  lemma {:induction false} AdjustingAgain(a: Alphabet, g: Field, h: Field, id: nat)
    requires Sane(a) && WellNamed(a, g) && Numbered(g, id) && Adjusted(a, g, h) && Numbered(h, id)
    ensures h == g
    decreases g, 1
  {
    match g.dataType
    case Wrapped(_, child) => AdjustingAgain(a, child, h.dataType.child, id + 1);
    case Struct(children) => AdjustingSiblingsAgain(a, children, h.dataType.children, id + 1);
    case _ =>
  }

  lemma {:induction false} AdjustingSiblingsAgain(a: Alphabet, gs: seq<Field>, hs: seq<Field>, id: nat)
    requires Sane(a) && WellNamedAll(a, gs) && NumberedAll(gs, id) && AdjustedAll(a, gs, hs) && NumberedAll(hs, id)
    ensures hs == gs
    decreases gs, 0
  {
    if gs != [] {
      var n := |gs| - 1;
      AdjustingSiblingsAgain(a, gs[..n], hs[..n], id);
      var base := BaseName(a, gs[n].name, n);
      var k: nat :| FirstFree(a, base, LowerNames(a, hs[..n]), k) && hs[n].name == Candidate(base, k);
      assert Candidate(base, 0) == gs[n].name;
      AdjustingAgain(a, gs[n], hs[n].(name := gs[n].name), id + SizeAll(gs[..n]));
      assert hs == hs[..n] + [hs[n]] && gs == gs[..n] + [gs[n]];
    }
  }

  /** Processing a finished schema once more returns it unchanged. */
  lemma SchemaIdempotent(a: Alphabet, fields: seq<Field>, gs: seq<Field>, hs: seq<Field>)
    requires Sane(a)
    requires AdjustedAll(a, fields, gs) && NumberedAll(gs, 1)
    requires AdjustedAll(a, gs, hs) && NumberedAll(hs, 1)
    ensures hs == gs
  {
    SiblingsAreWellNamed(a, fields, gs);
    AdjustingSiblingsAgain(a, gs, hs, 1);
  }
}
