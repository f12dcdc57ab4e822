/**
 The set operation of a materialized algebra output
 (v4/go/internal/reader/algebra_output.go): which segments belong to the result, and
 which output feeds they carry.
 */
module SetPlan {
  import opened Collections
  import opened Presence
  import opened SweepAnalysis

  datatype Plan =
    | Union(selection: Selection)
    | Intersection(selection: Selection)
    | Exclusion(included: Selection, excluded: Selection)

  predicate PlanOk(p: Plan, feeds: nat) {
    match p
    case Exclusion(i, e) => SelectionOk(i, feeds) && SelectionOk(e, feeds)
    case _ => SelectionOk(p.selection, feeds)
  }

  ghost function Chosen(s: Selection, feeds: nat): set<nat> {
    set g: nat | g < feeds && Selects(s, g)
  }

  /** The selection whose feeds the output names. */
  function Target(p: Plan): Selection {
    if p.Exclusion? then p.included else p.selection
  }

  /** Whether an address whose present feeds are `here` belongs to the result. */
  ghost predicate Qualified(p: Plan, here: set<nat>, feeds: nat) {
    match p
    case Union(s) => Chosen(s, feeds) * here != {}
    case Intersection(s) => Chosen(s, feeds) != {} && Chosen(s, feeds) <= here
    case Exclusion(i, e) => Chosen(i, feeds) * here != {} && Chosen(e, feeds) * here == {}
  }

  /** The feeds of an address kept in the result. */
  ghost function Kept(p: Plan, here: set<nat>, feeds: nat): set<nat> {
    if Qualified(p, here, feeds) then Chosen(Target(p), feeds) * here else {}
  }

  lemma KeptSome(p: Plan, here: set<nat>, feeds: nat)
    ensures Qualified(p, here, feeds) <==> Kept(p, here, feeds) != {}
  {
    if Qualified(p, here, feeds) && p.Intersection? {
      assert Chosen(p.selection, feeds) * here == Chosen(p.selection, feeds);
    }
  }

  method AnyOf(s: Selection, present: seq<nat>, counts: seq<nat>) returns (found: bool)
    requires SelectionOk(s, |counts|) && Listed(present, counts)
    ensures found <==> Chosen(s, |counts|) * Elements(present) != {}
  {
    found := Any(s, present, counts);
    if found {
      var g: nat :| g < |counts| && Selects(s, g) && counts[g] > 0;
      assert g in present && g in Chosen(s, |counts|) * Elements(present);
    }
    forall g | g in Chosen(s, |counts|) && g in present ensures found { assert counts[g] > 0; }
  }

  lemma {:induction false} AllBelow(feeds: nat)
    ensures |Chosen(All, feeds)| == feeds
  {
    if feeds > 0 {
      AllBelow(feeds - 1);
      assert Chosen(All, feeds) == Chosen(All, feeds - 1) + {feeds - 1};
    } else {
      assert Chosen(All, 0) == {};
    }
  }

  /** Every selected feed is present; an empty selection never qualifies. */
  method AllPresent(s: Selection, present: seq<nat>, counts: seq<nat>) returns (all: bool)
    requires SelectionOk(s, |counts|) && Listed(present, counts) && Distinct(present)
    ensures all <==> Chosen(s, |counts|) != {} && Chosen(s, |counts|) <= Elements(present)
  {
    ghost var chosen := Chosen(s, |counts|);
    ElementsSize(present);
    if s.All? {
      AllBelow(|counts|);
      AllOfThem(present, counts);
      return |counts| != 0 && |present| == |counts|;
    }
    Positions(s, |counts|);
    if |s.positions| > |present| {
      if chosen <= Elements(present) {
        SubsetSize(chosen, Elements(present));
      }
      return false;
    }
    for i := 0 to |s.positions|
      invariant forall j :: 0 <= j < i ==> s.positions[j] in present
    {
      assert s.positions[i] in chosen;
      if counts[s.positions[i]] == 0 {
        assert s.positions[i] !in present;
        return false;
      }
      assert s.positions[i] in present;
    }
    return |s.positions| != 0;
  }

  lemma AllOfThem(present: seq<nat>, counts: seq<nat>)
    requires Listed(present, counts) && Distinct(present)
    ensures Chosen(All, |counts|) <= Elements(present) <==> |present| == |counts|
    ensures Chosen(All, |counts|) != {} <==> |counts| != 0
  {
    var all := Chosen(All, |counts|);
    AllBelow(|counts|);
    ElementsSize(present);
    assert Elements(present) <= all;
    SubsetSize(Elements(present), all);
    if all <= Elements(present) {
      assert all == Elements(present);
    }
    assert all == {} <==> |all| == 0;
  }

  lemma Positions(s: Selection, feeds: nat)
    requires SelectionOk(s, feeds) && s.Named?
    ensures Chosen(s, feeds) == Elements(s.positions) && |Elements(s.positions)| == |s.positions|
    ensures s.positions != [] ==> s.positions[0] in Chosen(s, feeds)
  {
    assert Distinct(s.positions);
    ElementsSize(s.positions);
  }

  /** The three tests on sets of feeds, on the counts. */
  lemma ChosenMeans(s: Selection, present: seq<nat>, counts: seq<nat>)
    requires Listed(present, counts)
    ensures Chosen(s, |counts|) * Elements(present) != {} <==> exists g: nat :: g < |counts| && Selects(s, g) && counts[g] > 0
    ensures Chosen(s, |counts|) != {} <==> exists g: nat :: g < |counts| && Selects(s, g)
    ensures Chosen(s, |counts|) <= Elements(present) <==> forall g: nat :: g < |counts| && Selects(s, g) ==> counts[g] > 0
  {
    var chosen := Chosen(s, |counts|);
    if g: nat :| g < |counts| && Selects(s, g) {
      assert g in chosen;
    }
    assert chosen * Elements(present) != {} <==> exists g: nat :: g < |counts| && Selects(s, g) && counts[g] > 0 by {
      if g: nat :| g < |counts| && Selects(s, g) && counts[g] > 0 { assert g in present && g in chosen * Elements(present); }
      if g :| g in chosen * Elements(present) { assert g in present && Selects(s, g) && counts[g] > 0; }
    }
    if chosen <= Elements(present) {
      forall g: nat | g < |counts| && Selects(s, g) ensures counts[g] > 0 { assert g in chosen && g in present; }
    }
    if forall g: nat :: g < |counts| && Selects(s, g) ==> counts[g] > 0 {
      forall g | g in chosen ensures g in Elements(present) { assert g in present; }
    }
  }

  method Qualifies(p: Plan, present: seq<nat>, counts: seq<nat>) returns (r: bool)
    requires PlanOk(p, |counts|) && Listed(present, counts) && Distinct(present)
    ensures r <==> Qualified(p, Elements(present), |counts|)
    ensures p.Union? ==> (r <==> exists g: nat :: g < |counts| && Selects(p.selection, g) && counts[g] > 0)
    ensures p.Intersection? ==>
      (r <==> (exists g: nat :: g < |counts| && Selects(p.selection, g)) && forall g: nat :: g < |counts| && Selects(p.selection, g) ==> counts[g] > 0)
    ensures p.Exclusion? ==>
      (r <==> && (exists g: nat :: g < |counts| && Selects(p.included, g) && counts[g] > 0)
              && !(exists g: nat :: g < |counts| && Selects(p.excluded, g) && counts[g] > 0))
  {
    forall s: Selection
      ensures Chosen(s, |counts|) * Elements(present) != {} <==> exists g: nat :: g < |counts| && Selects(s, g) && counts[g] > 0
      ensures Chosen(s, |counts|) != {} <==> exists g: nat :: g < |counts| && Selects(s, g)
      ensures Chosen(s, |counts|) <= Elements(present) <==> forall g: nat :: g < |counts| && Selects(s, g) ==> counts[g] > 0
    {
      ChosenMeans(s, present, counts);
    }
    match p
    case Union(s) =>
      r := AnyOf(s, present, counts);
    case Intersection(s) =>
      r := AllPresent(s, present, counts);
    case Exclusion(i, e) =>
      r := AnyOf(i, present, counts);
      if !r {
        return;
      }
      var excluded := AnyOf(e, present, counts);
      r := !excluded;
  }

  // ----- output positions

  predicate Ascending(s: seq<nat>) {
    forall i, j :: 0 <= i < j < |s| ==> s[i] < s[j]
  }

  lemma Append(s: seq<nat>, x: nat)
    requires Ascending(s) && forall y :: y in s ==> y < x
    ensures Ascending(s + [x])
  {
    forall i | 0 <= i < |s| ensures s[i] < x { assert s[i] in s; }
  }

  /** Every selected position, ascending. */
  method EachPosition(s: Selection, feeds: nat) returns (visited: seq<nat>)
    requires SelectionOk(s, feeds)
    ensures Ascending(visited) && Elements(visited) == Chosen(s, feeds)
  {
    if s.All? {
      visited := [];
      for position := 0 to feeds
        invariant Ascending(visited) && (forall x :: x in visited <==> 0 <= x < position)
      {
        Append(visited, position);
        visited := visited + [position];
      }
      return;
    }
    visited := s.positions;
  }

  /** Every present selected position, with whether the visit was ascending. */
  method EachPresent(s: Selection, present: seq<nat>, counts: seq<nat>) returns (visited: seq<nat>, sorted: bool)
    requires SelectionOk(s, |counts|) && Listed(present, counts) && Distinct(present)
    ensures Distinct(visited) && Elements(visited) == Chosen(s, |counts|) * Elements(present)
    ensures sorted ==> Ascending(visited)
  {
    visited := [];
    if s.All? {
      forall x | x in present ensures x in Chosen(s, |counts|) {}
      return present, |present| < 2;
    }
    if |s.positions| <= |present| {
      for i := 0 to |s.positions|
        invariant Ascending(visited) && (forall x :: x in visited ==> i > 0 && x <= s.positions[i - 1])
        invariant forall x :: x in visited <==> x in s.positions[..i] && x in present
      {
        if counts[s.positions[i]] != 0 {
          Append(visited, s.positions[i]);
          visited := visited + [s.positions[i]];
        }
        assert s.positions[i] in present <==> counts[s.positions[i]] != 0;
      }
      assert s.positions[..|s.positions|] == s.positions;
      return visited, true;
    }
    forall j | 0 <= j < |present| ensures present[j] < |counts| { assert present[j] in present; }
    for i := 0 to |present|
      invariant Distinct(visited) && |visited| <= i
      invariant forall x :: x in visited <==> x in present[..i] && Selects(s, x)
    {
      if s.flags[present[i]] {
        assert present[i] !in present[..i];
        visited := visited + [present[i]];
      }
    }
    assert present[..|present|] == present;
    return visited, |present| < 2;
  }

  /** The position of each global feed in the output catalog. */
  ghost predicate Catalog(catalog: seq<nat>, globalToOutput: seq<nat>, p: Plan, feeds: nat) {
    && Ascending(catalog) && Elements(catalog) == Chosen(Target(p), feeds) && |globalToOutput| == feeds
    && forall j {:trigger catalog[j]} :: 0 <= j < |catalog| ==> catalog[j] < feeds && globalToOutput[catalog[j]] == j
  }

  /** The output positions of a set of global feeds. */
  ghost function Places(catalog: seq<nat>, kept: set<nat>): set<nat> {
    set j: nat | j < |catalog| && catalog[j] in kept
  }

  method BuildCatalog(p: Plan, feeds: nat) returns (catalog: seq<nat>, globalToOutput: seq<nat>)
    requires PlanOk(p, feeds)
    ensures Ascending(catalog) && Elements(catalog) == Chosen(Target(p), feeds)
    ensures Catalog(catalog, globalToOutput, p, feeds)
  {
    catalog := EachPosition(Target(p), feeds);
    globalToOutput := seq(feeds, _ => 0xFFFF_FFFF);
    forall j | 0 <= j < |catalog| ensures catalog[j] < feeds { assert catalog[j] in Elements(catalog); }
    for output := 0 to |catalog|
      invariant |globalToOutput| == feeds
      invariant forall j {:trigger catalog[j]} :: 0 <= j < output ==> globalToOutput[catalog[j]] == j
    {
      globalToOutput := globalToOutput[catalog[output] := output];
    }
  }

  /** Insert into an ascending list. */
  method Insert(s: seq<nat>, x: nat) returns (r: seq<nat>)
    requires Ascending(s) && x !in s
    ensures Ascending(r) && forall y :: y in r <==> y in s || y == x
  {
    var i := 0;
    while i < |s| && s[i] < x
      invariant i <= |s| && forall j :: 0 <= j < i ==> s[j] < x
    {
      i := i + 1;
    }
    assert i < |s| ==> s[i] in s;
    InsertAt(s, i, x);
    r := s[..i] + [x] + s[i..];
  }

  lemma InsertAt(s: seq<nat>, i: nat, x: nat)
    requires Ascending(s) && i <= |s| && (forall j :: 0 <= j < i ==> s[j] < x) && (i < |s| ==> x < s[i])
    ensures Ascending(s[..i] + [x] + s[i..]) && forall y :: y in s[..i] + [x] + s[i..] <==> y in s || y == x
  {
    var r := s[..i] + [x] + s[i..];
    forall j, k | 0 <= j < k < |r|
      ensures r[j] < r[k]
    {
      assert r[j] == if j < i then s[j] else if j == i then x else s[j - 1];
      assert r[k] == if k < i then s[k] else if k == i then x else s[k - 1];
    }
    assert s == s[..i] + s[i..];
    forall y ensures y in r <==> y in s || y == x {
      assert y in s <==> y in s[..i] || y in s[i..];
    }
  }

  method Sort(s: seq<nat>) returns (r: seq<nat>)
    requires Distinct(s)
    ensures Ascending(r) && forall y :: y in r <==> y in s
  {
    r := [];
    for i := 0 to |s|
      invariant Ascending(r) && forall y :: y in r <==> y in s[..i]
    {
      assert s[i] !in s[..i];
      r := Insert(r, s[i]);
      assert s[..i + 1] == s[..i] + [s[i]];
    }
    assert s[..|s|] == s;
  }

  /** The output positions of a qualifying segment, ascending. */
  method FillOutput(p: Plan, present: seq<nat>, counts: seq<nat>, ghost catalog: seq<nat>, globalToOutput: seq<nat>) returns (output: seq<nat>)
    requires PlanOk(p, |counts|) && Listed(present, counts) && Distinct(present)
    requires Catalog(catalog, globalToOutput, p, |counts|) && Qualified(p, Elements(present), |counts|)
    ensures Ascending(output) && Elements(output) == Places(catalog, Kept(p, Elements(present), |counts|))
  {
    var visited, sorted;
    match p {
      case Intersection(s) =>
        visited := EachPosition(s, |counts|);
        sorted := true;
        assert Chosen(s, |counts|) * Elements(present) == Chosen(s, |counts|);
      case Union(s) =>
        visited, sorted := EachPresent(s, present, counts);
      case Exclusion(i, _) =>
        visited, sorted := EachPresent(i, present, counts);
    }
    output := [];
    for i := 0 to |visited|
      invariant |output| == i && forall j {:trigger output[j]} :: 0 <= j < i ==> output[j] < |catalog| && catalog[output[j]] == visited[j]
    {
      Placed(catalog, globalToOutput, p, |counts|, visited, i);
      output := output + [globalToOutput[visited[i]]];
    }
    PlacesOf(catalog, globalToOutput, p, |counts|, visited, output, Kept(p, Elements(present), |counts|));
    if !sorted {
      output := Sort(output);
    } else {
      PlacesAscend(catalog, visited, output);
    }
  }

  lemma Placed(catalog: seq<nat>, globalToOutput: seq<nat>, p: Plan, feeds: nat, visited: seq<nat>, i: nat)
    requires Catalog(catalog, globalToOutput, p, feeds) && Elements(visited) <= Chosen(Target(p), feeds) && i < |visited|
    ensures visited[i] < feeds && globalToOutput[visited[i]] < |catalog| && catalog[globalToOutput[visited[i]]] == visited[i]
  {
    assert visited[i] in Elements(visited);
    assert visited[i] in Elements(catalog);
    var j :| 0 <= j < |catalog| && catalog[j] == visited[i];
  }

  lemma PlacesOf(catalog: seq<nat>, globalToOutput: seq<nat>, p: Plan, feeds: nat, visited: seq<nat>, output: seq<nat>, kept: set<nat>)
    requires Catalog(catalog, globalToOutput, p, feeds) && Distinct(visited) && Elements(visited) == kept
    requires |output| == |visited| && forall j {:trigger output[j]} :: 0 <= j < |output| ==> output[j] < |catalog| && catalog[output[j]] == visited[j]
    ensures Distinct(output) && Elements(output) == Places(catalog, kept)
  {
    forall j | j in Places(catalog, kept)
      ensures j in output
    {
      assert catalog[j] in Elements(visited);
      var i :| 0 <= i < |visited| && visited[i] == catalog[j];
      assert catalog[output[i]] == catalog[j];
      assert output[i] == j;
    }
    forall j | j in output
      ensures j in Places(catalog, kept)
    {
      var i :| 0 <= i < |output| && output[i] == j;
      assert visited[i] in Elements(visited);
    }
    forall i, j | 0 <= i < j < |output| ensures output[i] != output[j] { assert visited[i] != visited[j]; }
  }

  lemma PlacesAscend(catalog: seq<nat>, visited: seq<nat>, output: seq<nat>)
    requires Ascending(catalog) && Ascending(visited)
    requires |output| == |visited| && forall j {:trigger output[j]} :: 0 <= j < |output| ==> output[j] < |catalog| && catalog[output[j]] == visited[j]
    ensures Ascending(output)
  {
    forall i, j | 0 <= i < j < |output|
      ensures output[i] < output[j]
    {
      assert visited[i] < visited[j];
      assert catalog[output[i]] < catalog[output[j]];
    }
  }
}
