/** Walking nested ZIP archives under shared budgets
    (ckan-ingestor-rs/ckan-ingestor-lib/src/readers/crawler_archive.rs). */
module ArchiveVisit {
  import opened Common

  const U64_LIMIT := 0x1_0000_0000_0000_0000

  /** A member holds its declared size; `content` is the archive found when it is opened as one. */
  datatype Member = Directory | File(name: string, size: nat, content: Option<Archive>)

  datatype Archive = Archive(members: seq<Member>)

  datatype Limits = Limits(maxZipBytes: nat, maxExpandedBytes: nat, maxDepth: nat, maxEntries: nat)

  // ----- Names and formats -----

  function LowerChar(c: char): char { if 'A' <= c <= 'Z' then c - 'A' + 'a' else c }

  function UpperChar(c: char): char { if 'a' <= c <= 'z' then c - 'a' + 'A' else c }

  function Lower(s: string): string { seq(|s|, i requires 0 <= i < |s| => LowerChar(s[i])) }

  function Upper(s: string): string { seq(|s|, i requires 0 <= i < |s| => UpperChar(s[i])) }

  predicate EndsWith(s: string, suffix: string) { |suffix| <= |s| && s[|s| - |suffix|..] == suffix }

  predicate Contains(s: string, part: string) {
    part <= s || (s != [] && Contains(s[1..], part))
  }

  predicate MatchesFormat(name: string, format: string) {
    var lower, upper := Lower(name), Upper(format);
    if Contains(upper, "TIFF") || Contains(upper, "TIF") then EndsWith(lower, ".tif") || EndsWith(lower, ".tiff")
    else if Contains(upper, "CSV") then EndsWith(lower, ".csv")
    else if Contains(upper, "JSON") then EndsWith(lower, ".json") || EndsWith(lower, ".geojson")
    else if Contains(upper, "DOCX") then EndsWith(lower, ".docx")
    else if Contains(upper, "MAP") then EndsWith(lower, ".map")
    else if Contains(upper, "PDF") then EndsWith(lower, ".pdf")
    else if Contains(upper, "TAB") then EndsWith(lower, ".tab")
    else false
  }

  lemma LetterCase()
    ensures forall c :: LowerChar(c) == (if 'A' <= c <= 'Z' then (c as int + 32) as char else c)
    ensures forall c :: UpperChar(c) == (if 'a' <= c <= 'z' then (c as int - 32) as char else c)
  {}

  ghost predicate FoundAt(s: string, part: string, p: nat) { p + |part| <= |s| && s[p..p + |part|] == part }

  lemma {:induction false} ContainsMeans(s: string, part: string)
    ensures Contains(s, part) <==> exists p: nat :: FoundAt(s, part, p)
  {
    if part <= s {
      assert FoundAt(s, part, 0);
    } else {
      assert !FoundAt(s, part, 0) by { if |part| <= |s| { assert s[0..|part|] == s[..|part|]; } }
      if s != [] {
        ContainsMeans(s[1..], part);
        forall p: nat ensures FoundAt(s[1..], part, p) <==> FoundAt(s, part, p + 1) {
          if p + 1 + |part| <= |s| { assert s[1..][p..p + |part|] == s[p + 1..p + 1 + |part|]; }
        }
        if p: nat :| FoundAt(s, part, p) {
          assert p > 0;
          assert FoundAt(s[1..], part, p - 1);
        }
      }
    }
  }

  // The rules in the order in which they are tried: words of a format, and the endings that go with them.

  ghost predicate Applies(k: nat, format: string) {
    var upper := Upper(format);
    match k
    case 0 => Contains(upper, "TIFF") || Contains(upper, "TIF")
    case 1 => Contains(upper, "CSV")
    case 2 => Contains(upper, "JSON")
    case 3 => Contains(upper, "DOCX")
    case 4 => Contains(upper, "MAP")
    case 5 => Contains(upper, "PDF")
    case 6 => Contains(upper, "TAB")
    case _ => false
  }

  ghost predicate Ends(k: nat, name: string) {
    var lower := Lower(name);
    match k
    case 0 => EndsWith(lower, ".tif") || EndsWith(lower, ".tiff")
    case 1 => EndsWith(lower, ".csv")
    case 2 => EndsWith(lower, ".json") || EndsWith(lower, ".geojson")
    case 3 => EndsWith(lower, ".docx")
    case 4 => EndsWith(lower, ".map")
    case 5 => EndsWith(lower, ".pdf")
    case 6 => EndsWith(lower, ".tab")
    case _ => false
  }

  /** The first rule that applies decides; without one nothing matches. */
  lemma FormatsExact(name: string, format: string, k: nat)
    requires forall j: nat :: j < k ==> !Applies(j, format)
    ensures Applies(k, format) ==> (MatchesFormat(name, format) <==> Ends(k, name))
    ensures k == 7 ==> !MatchesFormat(name, format)
  {
    assert k > 0 ==> !Applies(0, format);
    assert k > 1 ==> !Applies(1, format);
    assert k > 2 ==> !Applies(2, format);
    assert k > 3 ==> !Applies(3, format);
    assert k > 4 ==> !Applies(4, format);
    assert k > 5 ==> !Applies(5, format);
    assert k > 6 ==> !Applies(6, format);
  }

  predicate IsZip(m: Member) { m.File? && EndsWith(Lower(m.name), ".zip") }

  function MemberSource(source: string, name: string): string { source + "!/" + name }

  // ----- What the whole tree costs, and what it offers -----

  function Nested(m: Member): Option<Archive> {
    if IsZip(m) then m.content else None
  }

  /** Every member counts, directories included. */
  function Entries(ms: seq<Member>): nat
    decreases ms
  {
    if ms == [] then 0 else Entries(ms[..|ms| - 1]) + MemberEntries(ms[|ms| - 1])
  }

  function MemberEntries(m: Member): nat
    decreases m
  {
    1 + if Nested(m).Some? then Entries(m.content.value.members) else 0
  }

  /** Every file counts, whether it is wanted or not. */
  function Expanded(ms: seq<Member>): nat
    decreases ms
  {
    if ms == [] then 0 else Expanded(ms[..|ms| - 1]) + MemberExpanded(ms[|ms| - 1])
  }

  function MemberExpanded(m: Member): nat
    decreases m
  {
    (if m.File? then m.size else 0) + if Nested(m).Some? then Expanded(m.content.value.members) else 0
  }

  function Max(a: nat, b: nat): nat { if a >= b then a else b }

  /** Levels of archives below this member list. */
  function Levels(ms: seq<Member>): nat
    decreases ms
  {
    if ms == [] then 0 else Max(Levels(ms[..|ms| - 1]), MemberLevels(ms[|ms| - 1]))
  }

  function MemberLevels(m: Member): nat
    decreases m
  {
    if Nested(m).Some? then 1 + Levels(m.content.value.members) else 0
  }

  /** Every member called `.zip` opens, and is no larger than one archive may be. */
  predicate Sound(ms: seq<Member>, maxZip: nat)
    decreases ms
  {
    ms != [] ==> Sound(ms[..|ms| - 1], maxZip) && MemberSound(ms[|ms| - 1], maxZip)
  }

  predicate MemberSound(m: Member, maxZip: nat)
    decreases m
  {
    IsZip(m) ==> m.size <= maxZip && m.content.Some? && Sound(m.content.value.members, maxZip)
  }

  /** The wanted members in preorder, named by their path through the archives. */
  function Wanted(ms: seq<Member>, source: string, format: string): seq<string>
    decreases ms
  {
    if ms == [] then [] else Wanted(ms[..|ms| - 1], source, format) + MemberWanted(ms[|ms| - 1], source, format)
  }

  function MemberWanted(m: Member, source: string, format: string): seq<string>
    decreases m
  {
    if Nested(m).Some? then Wanted(m.content.value.members, MemberSource(source, m.name), format)
    else if m.File? && !IsZip(m) && MatchesFormat(m.name, format) then [MemberSource(source, m.name)]
    else []
  }

  /** The members fit, given what is already used. */
  predicate MembersFit(ms: seq<Member>, limits: Limits, depth: nat, entries: nat, expanded: nat) {
    && depth + Levels(ms) <= limits.maxDepth
    && Sound(ms, limits.maxZipBytes)
    && entries + Entries(ms) <= limits.maxEntries
    && expanded + Expanded(ms) <= limits.maxExpandedBytes
  }

  predicate Fits(a: Archive, size: nat, limits: Limits, depth: nat, entries: nat, expanded: nat) {
    size <= limits.maxZipBytes && MembersFit(a.members, limits, depth, entries, expanded)
  }

  predicate MemberFits(m: Member, limits: Limits, depth: nat, entries: nat, expanded: nat) {
    && depth + MemberLevels(m) <= limits.maxDepth
    && MemberSound(m, limits.maxZipBytes)
    && entries + MemberEntries(m) <= limits.maxEntries
    && expanded + MemberExpanded(m) <= limits.maxExpandedBytes
  }

  /** The costs and the offer of a prefix of the members are part of those of the whole list. */
  lemma {:induction false} PrefixCosts(ms: seq<Member>, k: nat, source: string, format: string, maxZip: nat)
    requires k <= |ms|
    ensures Entries(ms[..k]) <= Entries(ms) && Expanded(ms[..k]) <= Expanded(ms) && Levels(ms[..k]) <= Levels(ms)
    ensures Sound(ms, maxZip) ==> Sound(ms[..k], maxZip)
    ensures Wanted(ms[..k], source, format) <= Wanted(ms, source, format)
  {
    if k < |ms| {
      var n := |ms| - 1;
      assert ms[..n][..k] == ms[..k];
      PrefixCosts(ms[..n], k, source, format, maxZip);
    } else {
      assert ms[..k] == ms;
    }
  }

  /** Going on by one member. */
  lemma NextMember(ms: seq<Member>, k: nat, limits: Limits, depth: nat, entries: nat, expanded: nat)
    requires k < |ms| && MembersFit(ms[..k], limits, depth, entries, expanded)
    ensures var e, x := entries + Entries(ms[..k]), expanded + Expanded(ms[..k]);
            MembersFit(ms[..k + 1], limits, depth, entries, expanded) <==> MemberFits(ms[k], limits, depth, e, x)
    ensures MembersFit(ms, limits, depth, entries, expanded) ==> MembersFit(ms[..k + 1], limits, depth, entries, expanded)
    ensures Entries(ms[..k + 1]) == Entries(ms[..k]) + MemberEntries(ms[k])
    ensures Expanded(ms[..k + 1]) == Expanded(ms[..k]) + MemberExpanded(ms[k])
  {
    assert ms[..k + 1][..k] == ms[..k];
    PrefixCosts(ms, k + 1, "", "", limits.maxZipBytes);
  }

  lemma NextWanted(ms: seq<Member>, k: nat, source: string, format: string)
    requires k < |ms|
    ensures Wanted(ms[..k], source, format) + MemberWanted(ms[k], source, format) == Wanted(ms[..k + 1], source, format)
    ensures Wanted(ms[..k + 1], source, format) <= Wanted(ms, source, format)
  {
    assert ms[..k + 1][..k] == ms[..k];
    PrefixCosts(ms, k + 1, source, format, 0);
  }

  lemma PrefixStays(before: seq<string>, part: seq<string>, more: seq<string>, all: seq<string>, out: seq<string>)
    requires part + more <= all && before + part <= out <= before + part + more
    ensures before <= out <= before + all
  {
    assert before + part + more == before + (part + more);
  }

  // ----- A small tree -----

  /** A folder, a nested archive with a wanted and an unwanted file, and a wanted file behind it. */
  function SmallTree(zip: string, wanted: string, other: string, a: nat, b: nat, c: nat, d: nat): seq<Member> {
    [Directory, File(zip, a, Some(Archive(Inside(wanted, other, b, c)))), File(wanted, d, None)]
  }

  function Inside(wanted: string, other: string, b: nat, c: nat): seq<Member> { [File(wanted, b, None), File(other, c, None)] }

  /** Adding a member at the end. */
  lemma OneMore(ms: seq<Member>, m: Member, source: string, format: string)
    ensures Entries(ms + [m]) == Entries(ms) + MemberEntries(m) && Expanded(ms + [m]) == Expanded(ms) + MemberExpanded(m)
    ensures Levels(ms + [m]) == Max(Levels(ms), MemberLevels(m))
ensures Wanted(ms + [m], source, format) == Wanted(ms, source, format) + MemberWanted(m, source, format)
  {
    assert (ms + [m])[..|ms|] == ms;
  }

  lemma OneMoreSound(ms: seq<Member>, m: Member, maxZip: nat)
    ensures Sound(ms + [m], maxZip) <==> Sound(ms, maxZip) && MemberSound(m, maxZip)
  {
    assert (ms + [m])[..|ms|] == ms;
  }

  lemma SmallTreeSound(zip: string, wanted: string, other: string, a: nat, b: nat, c: nat, d: nat, maxZip: nat)
    requires EndsWith(Lower(zip), ".zip") && !EndsWith(Lower(wanted), ".zip") && !EndsWith(Lower(other), ".zip")
    ensures Sound(SmallTree(zip, wanted, other, a, b, c, d), maxZip) <==> a <= maxZip
  {
    var first, second, last := File(wanted, b, None), File(other, c, None), File(wanted, d, None);
    var archive := File(zip, a, Some(Archive(Inside(wanted, other, b, c))));
    assert Inside(wanted, other, b, c) == [] + [first] + [second];
    OneMoreSound([], first, maxZip);
    OneMoreSound([] + [first], second, maxZip);
    assert SmallTree(zip, wanted, other, a, b, c, d) == [] + [Directory] + [archive] + [last];
    OneMoreSound([], Directory, maxZip);
    OneMoreSound([] + [Directory], archive, maxZip);
    OneMoreSound([] + [Directory] + [archive], last, maxZip);
  }

  lemma InsideCosts(wanted: string, other: string, b: nat, c: nat, source: string, format: string)
    requires MatchesFormat(wanted, format) && !MatchesFormat(other, format)
    requires !EndsWith(Lower(wanted), ".zip") && !EndsWith(Lower(other), ".zip")
    ensures var ms := Inside(wanted, other, b, c);
            && Entries(ms) == 2 && Expanded(ms) == b + c && Levels(ms) == 0
            && Wanted(ms, source, format) == [source + "!/" + wanted]
  {
    var first, second := File(wanted, b, None), File(other, c, None);
    assert Inside(wanted, other, b, c) == [] + [first] + [second];
    OneMore([], first, source, format);
    OneMore([] + [first], second, source, format);
  }

  /** Costs and offer of such a tree: directories and archives count as entries, archives by their own size and by what they
      hold, an archive is one level, and files are named by the way that leads to them. */
  lemma SmallTreeCosts(zip: string, wanted: string, other: string, a: nat, b: nat, c: nat, d: nat, source: string, format: string)
    requires EndsWith(Lower(zip), ".zip") && MatchesFormat(wanted, format) && !MatchesFormat(other, format)
    requires !EndsWith(Lower(wanted), ".zip") && !EndsWith(Lower(other), ".zip")
    ensures var ms := SmallTree(zip, wanted, other, a, b, c, d);
            && Entries(ms) == 5 && Expanded(ms) == a + b + c + d && Levels(ms) == 1
            && Wanted(ms, source, format) == [source + "!/" + zip + "!/" + wanted, source + "!/" + wanted]
  {
    var archive, last := File(zip, a, Some(Archive(Inside(wanted, other, b, c)))), File(wanted, d, None);
    InsideCosts(wanted, other, b, c, source + "!/" + zip, format);
    assert SmallTree(zip, wanted, other, a, b, c, d) == [] + [Directory] + [archive] + [last];
    OneMore([], Directory, source, format);
    OneMore([] + [Directory], archive, source, format);
    OneMore([] + [Directory] + [archive], last, source, format);
  }

  // ----- The walk -----

  class VisitState {
    var depth: nat
    var entries: nat
    var expanded: nat
    var visited: seq<string>

    constructor ()
      ensures depth == 1 && entries == 0 && expanded == 0 && visited == []
    {
      depth, entries, expanded, visited := 1, 0, 0, [];
    }
  }

  /** `visited` records the calls of the visitor, which never fails. */
  method VisitZip(a: Archive, size: nat, source: string, format: string, limits: Limits)
    returns (found: Option<nat>, visited: seq<string>)
    requires limits.maxExpandedBytes < U64_LIMIT
    ensures found.Some? <==> Fits(a, size, limits, 1, 0, 0)
    ensures found.Some? ==> visited == Wanted(a.members, source, format) && found.value == |visited|
    ensures visited <= Wanted(a.members, source, format)
  {
    var state := new VisitState();
    found := VisitZipInner(a, size, source, format, limits, state);
    visited := state.visited;
    assert [] + Wanted(a.members, source, format) == Wanted(a.members, source, format);
  }

  method VisitZipInner(a: Archive, size: nat, source: string, format: string, limits: Limits, state: VisitState)
    returns (found: Option<nat>)
    requires limits.maxExpandedBytes < U64_LIMIT
    requires state.entries <= limits.maxEntries && state.expanded <= limits.maxExpandedBytes
    modifies state
    ensures found.Some? <==> Fits(a, size, limits, old(state.depth), old(state.entries), old(state.expanded))
    ensures found.Some? ==>
              && state.depth == old(state.depth)
              && state.entries == old(state.entries) + Entries(a.members)
              && state.expanded == old(state.expanded) + Expanded(a.members)
              && state.visited == old(state.visited) + Wanted(a.members, source, format)
              && found.value == |Wanted(a.members, source, format)|
    ensures old(state.visited) <= state.visited <= old(state.visited) + Wanted(a.members, source, format)
    decreases a
  {
    var ms := a.members;
    ghost var before := state.visited;
    ghost var depth, entries, expanded := state.depth, state.entries, state.expanded;
    if state.depth > limits.maxDepth || size > limits.maxZipBytes {
      return None;
    }
    var count := 0;
    var index := 0;
    while index < |ms|
      invariant 0 <= index <= |ms| && state.depth == depth
      invariant MembersFit(ms[..index], limits, depth, entries, expanded)
      invariant state.entries == entries + Entries(ms[..index])
      invariant state.expanded == expanded + Expanded(ms[..index])
      invariant state.visited == before + Wanted(ms[..index], source, format)
      invariant count == |Wanted(ms[..index], source, format)|
    {
      NextMember(ms, index, limits, depth, entries, expanded);
      NextWanted(ms, index, source, format);
      ghost var part := Wanted(ms[..index], source, format);
      var more := VisitMember(ms[index], source, format, limits, state);
      PrefixStays(before, part, MemberWanted(ms[index], source, format), Wanted(ms, source, format), state.visited);
      if more.None? {
        return None;
      }
      assert before + part + MemberWanted(ms[index], source, format) == before + (part + MemberWanted(ms[index], source, format));
      count := count + more.value;
      index := index + 1;
    }
    assert ms[..index] == ms;
    return Some(count);
  }

  /** One round of the loop over the members of an archive. */
  method VisitMember(member: Member, source: string, format: string, limits: Limits, state: VisitState) returns (found: Option<nat>)
    requires limits.maxExpandedBytes < U64_LIMIT && state.depth <= limits.maxDepth
    requires state.entries <= limits.maxEntries && state.expanded <= limits.maxExpandedBytes
    modifies state
    ensures found.Some? <==> MemberFits(member, limits, old(state.depth), old(state.entries), old(state.expanded))
    ensures found.Some? ==>
              && state.depth == old(state.depth)
              && state.entries == old(state.entries) + MemberEntries(member)
              && state.expanded == old(state.expanded) + MemberExpanded(member)
              && state.visited == old(state.visited) + MemberWanted(member, source, format)
              && found.value == |MemberWanted(member, source, format)|
    ensures old(state.visited) <= state.visited <= old(state.visited) + MemberWanted(member, source, format)
    decreases member
  {
    state.entries := state.entries + 1;
    if state.entries > limits.maxEntries {
      return None;
    }
    if member.Directory? {
      return Some(0);
    }
    if state.expanded + member.size >= U64_LIMIT {
      return None;
    }
    state.expanded := state.expanded + member.size;
    if state.expanded > limits.maxExpandedBytes {
      return None;
    }
    var nested := IsZip(member);
    if !nested && !MatchesFormat(member.name, format) {
      return Some(0);
    }
    var memberSource := MemberSource(source, member.name);
    if nested {
      if member.content.None? {
        return None;
      }
      state.depth := state.depth + 1;
      found := VisitZipInner(member.content.value, member.size, memberSource, format, limits, state);
      if found.Some? {
        state.depth := state.depth - 1;
      }
    } else {
      state.visited := state.visited + [memberSource];
      return Some(1);
    }
  }
}
