/** Small shared vocabulary: optional values, the order of resource identifiers,
    and decimal rendering of the numbers that the ingestion code appends to names. */
module Common {

  datatype Option<+T> = None | Some(value: T)

  datatype Result<+T> = Success(value: T) | Failure(error: string)

  /** The order in which strings are compared and listed: by code point, prefixes first. */
  predicate StrLess(a: string, b: string) {
    b != [] && (a == [] || a[0] < b[0] || (a[0] == b[0] && StrLess(a[1..], b[1..])))
  }

  /** Exactly one of less, equal and greater holds. */
  lemma {:induction false} StrLessTotal(a: string, b: string)
    ensures StrLess(a, b) || StrLess(b, a) <==> a != b
    ensures !(StrLess(a, b) && StrLess(b, a))
  {
    if a != [] && b != [] {
      StrLessTotal(a[1..], b[1..]);
      assert a == [a[0]] + a[1..] && b == [b[0]] + b[1..];
    }
  }

  lemma {:induction false} StrLessTransitive(a: string, b: string, c: string)
    requires StrLess(a, b) && StrLess(b, c)
    ensures StrLess(a, c)
  {
    if a != [] && a[0] == b[0] == c[0] {
      StrLessTransitive(a[1..], b[1..], c[1..]);
    }
  }

  /** Less means: a proper prefix, or a smaller character at the first difference. */
  ghost predicate DiffersAt(a: string, b: string, k: nat) {
    k <= |a| && k < |b| && a[..k] == b[..k] && (k == |a| || a[k] < b[k])
  }

  lemma {:induction false} StrLessMeans(a: string, b: string)
    ensures StrLess(a, b) <==> exists k: nat :: DiffersAt(a, b, k)
  {
    if b == [] {
    } else if a == [] {
      assert DiffersAt(a, b, 0);
    } else if a[0] != b[0] {
      if a[0] < b[0] { assert DiffersAt(a, b, 0); }
      forall k: nat ensures DiffersAt(a, b, k) && k > 0 ==> a[0] == b[0] { SameHead(a, b, k); }
    } else {
      StrLessMeans(a[1..], b[1..]);
      forall k: nat ensures DiffersAt(a[1..], b[1..], k) <==> DiffersAt(a, b, k + 1) { DiffersLater(a, b, k); }
      if k: nat :| DiffersAt(a, b, k) {
        assert k > 0;
        assert DiffersAt(a[1..], b[1..], k - 1);
      }
    }
  }

  lemma SameHead(a: string, b: string, k: nat)
    requires a != [] && b != []
    ensures DiffersAt(a, b, k) && k > 0 ==> a[0] == b[0]
  {
    if k <= |a| && k <= |b| && k > 0 { assert a[..k][0] == a[0] && b[..k][0] == b[0]; }
  }

  lemma DiffersLater(a: string, b: string, k: nat)
    requires a != [] && b != [] && a[0] == b[0]
    ensures DiffersAt(a[1..], b[1..], k) <==> DiffersAt(a, b, k + 1)
  {
    if k < |a| && k < |b| {
      assert a[..k + 1] == [a[0]] + a[1..][..k] && b[..k + 1] == [b[0]] + b[1..][..k];
    }
  }

  ghost predicate IsLeast(m: string, s: set<string>) {
    m in s && forall x :: x in s ==> x == m || StrLess(m, x)
  }

  lemma LeastExists(s: set<string>)
    requires s != {}
    ensures exists m :: IsLeast(m, s)
    decreases |s|
  {
    var x :| x in s;
    if s == {x} {
      assert IsLeast(x, s);
    } else {
      assert |s - {x}| < |s| && s - {x} != {};
      LeastExists(s - {x});
      var m :| IsLeast(m, s - {x});
      StrLessTotal(x, m);
      if StrLess(x, m) {
        forall y | y in s && y != x ensures StrLess(x, y) {
          if y != m { StrLessTransitive(x, m, y); }
        }
        assert IsLeast(x, s);
      } else {
        assert IsLeast(m, s);
      }
    }
  }

  ghost function Least(s: set<string>): (m: string)
    requires s != {}
    ensures IsLeast(m, s)
  {
    LeastExists(s);
    var m :| IsLeast(m, s);
    m
  }

  /** The identifiers of a set in the order of an `ORDER BY id` query. */
  ghost function Ordered(s: set<string>): (r: seq<string>)
    decreases |s|
  {
    if s == {} then [] else [Least(s)] + Ordered(s - {Least(s)})
  }

  lemma {:induction false} OrderedLists(s: set<string>)
    ensures forall x :: x in Ordered(s) <==> x in s
    ensures forall i, j :: 0 <= i < j < |Ordered(s)| ==> StrLess(Ordered(s)[i], Ordered(s)[j])
    ensures |Ordered(s)| == |s|
    decreases |s|
  {
    if s != {} {
      var rest := s - {Least(s)};
      OrderedLists(rest);
      var tail := Ordered(rest);
      assert Ordered(s) == [Least(s)] + tail;
      forall j | 0 <= j < |tail| ensures StrLess(Least(s), tail[j]) {
        assert tail[j] in tail;
      }
    }
  }

  /** The least of some texts. */
  method FindLeast(s: set<string>) returns (m: string)
    requires s != {}
    ensures IsLeast(m, s)
  {
    m :| m in s;
    var others := s - {m};
    while others != {}
      invariant m in s && others <= s
      invariant forall x :: x in s - others ==> x == m || StrLess(m, x)
      decreases others
    {
      var x :| x in others;
      others := others - {x};
      StrLessTotal(m, x);
      if StrLess(x, m) {
        forall y | y in s - others && y != x ensures StrLess(x, y) {
          if y != m { StrLessTransitive(x, m, y); }
        }
        m := x;
      }
    }
  }

  /** Runs an ordered query. */
  method ListOrdered(s: set<string>) returns (r: seq<string>)
    ensures r == Ordered(s)
  {
    var pending := s;
    r := [];
    while pending != {}
      invariant pending <= s
      invariant r + Ordered(pending) == Ordered(s)
      decreases |pending|
    {
      var m := FindLeast(pending);
      StrLessTotal(m, Least(pending));
      r := r + [m];
      pending := pending - {m};
    }
  }

  function Digit(d: nat): char
    requires d < 10
  {
    "0123456789"[d]
  }

  /** Decimal text of a number. */
  function Decimal(n: nat): (s: string)
    ensures s != []
    ensures forall i :: 0 <= i < |s| ==> '0' <= s[i] <= '9'
  {
    if n < 10 then [Digit(n)] else Decimal(n / 10) + [Digit(n % 10)]
  }

  lemma {:induction false} DecimalInjective(a: nat, b: nat)
    requires Decimal(a) == Decimal(b)
    ensures a == b
  {
    var x, y := Decimal(a), Decimal(b);
    assert x[|x| - 1] == Digit(a % 10) && y[|y| - 1] == Digit(b % 10);
    if a >= 10 && b >= 10 {
      assert x[..|x| - 1] == Decimal(a / 10) && y[..|y| - 1] == Decimal(b / 10);
      DecimalInjective(a / 10, b / 10);
    }
  }

  /** The number that a decimal text stands for. */
  function ValueOf(s: string): int {
    if s == [] then 0 else 10 * ValueOf(s[..|s| - 1]) + (s[|s| - 1] as int - '0' as int)
  }

  /** The text of a number reads as the number, and has no leading zero. */
  lemma {:induction false} DecimalReads(n: nat)
    ensures ValueOf(Decimal(n)) == n && (n > 0 ==> Decimal(n)[0] != '0')
  {
    assert Digit(n % 10) as int - '0' as int == n % 10;
    if n < 10 {
      assert Decimal(n)[..0] == [];
    } else {
      DecimalReads(n / 10);
      assert Decimal(n)[..|Decimal(n)| - 1] == Decimal(n / 10);
    }
  }

  // ----- Looking for an unused name -----

  ghost predicate AllDifferent(names: nat -> string) {
    forall i: nat, j: nat :: i < j ==> names(i) != names(j)
  }

  /** The names of the first `k` attempts. */
  ghost function Tried(names: nat -> string, k: nat): set<string> {
    if k == 0 then {} else Tried(names, k - 1) + {names(k - 1)}
  }

  lemma {:induction false} TriedHolds(names: nat -> string, k: nat)
    requires AllDifferent(names)
    ensures |Tried(names, k)| == k
    ensures forall j: nat :: names(j) in Tried(names, k) <==> j < k
  {
    if k > 0 { TriedHolds(names, k - 1); }
  }

  /** Attempts that all met used names are at most as many as there are used names. */
  lemma TriesBounded(names: nat -> string, k: nat, used: set<string>)
    requires AllDifferent(names) && Tried(names, k) <= used
    ensures k <= |used|
  {
    TriedHolds(names, k);
    assert used == Tried(names, k) + (used - Tried(names, k));
  }

  // ----- Batches -----

  function Flatten<T>(batches: seq<seq<T>>): seq<T> {
    if batches == [] then [] else Flatten(batches[..|batches| - 1]) + batches[|batches| - 1]
  }

  /** Batches follow each other in order. */
  lemma {:induction false} FlattenAdd<T>(a: seq<seq<T>>, b: seq<seq<T>>)
    ensures Flatten(a + b) == Flatten(a) + Flatten(b)
    ensures forall batch: seq<T> :: Flatten([batch]) == batch
  {
    forall batch: seq<T> ensures Flatten([batch]) == batch { assert [batch][..0] == []; }
    if b == [] {
      assert a + b == a;
    } else {
      assert (a + b)[..|a + b| - 1] == a + b[..|b| - 1];
      FlattenAdd(a, b[..|b| - 1]);
    }
  }
}
