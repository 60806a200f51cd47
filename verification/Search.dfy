/** `match_var_path` as a function of the route tree and the request parts: one step of the
    worklist, the run to its end, and why the run is short. */
module Search {
  import opened Text
  import opened Apis
  import opened Branches
  import opened Frontier
  import opened Wiring

  datatype PathParam =
    | OptionParam(value: Option<string>)
    | RequiredParam(text: string)
    | VectorParam(texts: seq<string>)

  /** A branch still to be tried, and the number of the request part to match next. */
  datatype Item = Item(branch: Path, part: nat)

  datatype State = State(items: seq<Item>, args: map<string, PathParam>, suffix: string)

  /** `Panicked` is the index out of range at router.rs:291. */
  datatype Outcome =
    | Found(branch: Path, args: map<string, PathParam>, suffix: string)
    | NotFound
    | Panicked

  datatype StepResult = Continue(state: State) | Done(outcome: Outcome)

  // ----- find_consider_suffix -----

  /** Among the children first, among the omission-passed children second. */
  function Lookup(t: Trie, b: Path, part: string): Option<Path>
    requires b in t
  {
    if b + [part] in t then Some(b + [part])
    else if part in t[b].passed then Some(t[b].passed[part])
    else None
  }

  predicate Declared(apis: seq<Api>, suffix: string)
  {
    exists api | api in apis :: suffix in api.suffixes
  }

  /** Shorter and shorter heads of the part, cut at its boundaries from the right. */
  function BoundaryScan(t: Trie, b: Path, part: string, boundary: nat): Option<(Path, string)>
    requires b in t && boundary <= |part|
  {
    match RFind(part[..boundary], SUFFIX_BOUNDARY)
    case None => None
    case Some(previous) =>
      match Lookup(t, b, part[..previous])
      case Some(q) =>
        if q in t && Declared(t[q].branch.apis, part[previous + 1..]) then Some((q, part[previous + 1..])) else None
      case None => BoundaryScan(t, b, part, previous)
  }

  function FindConsiderSuffix(t: Trie, b: Path, part: string, isLast: bool): Option<(Path, string)>
    requires b in t
  {
    match Lookup(t, b, part)
    case Some(q) => Some((q, []))
    case None => if isLast then BoundaryScan(t, b, part, |part|) else None
  }

  /** The part is a key of the branch: of a child, or of a node passed through omissions. */
  ghost predicate IsKeyOf(t: Trie, b: Path, part: string)
    requires b in t
  {
    b + [part] in t || part in t[b].passed
  }

  /** The node with this key, a child before a passed node. */
  ghost function KeyNode(t: Trie, b: Path, key: string): Path
    requires b in t && IsKeyOf(t, b, key)
  {
    if b + [key] in t then b + [key] else t[b].passed[key]
  }

  lemma LookupMeans(t: Trie, b: Path, part: string)
    requires b in t
    ensures Lookup(t, b, part) == if IsKeyOf(t, b, part) then Some(KeyNode(t, b, part)) else None
  {
  }

  /** Of the heads of the part that end before a boundary, this is the longest to be a key. */
  ghost predicate IsLongestHead(t: Trie, b: Path, part: string, boundary: nat, k: nat)
    requires b in t && boundary <= |part|
  {
    && k < boundary && part[k] == SUFFIX_BOUNDARY && IsKeyOf(t, b, part[..k])
    && forall j | k < j < boundary && part[j] == SUFFIX_BOUNDARY :: !IsKeyOf(t, b, part[..j])
  }

  /** The node with this head for a key declares the rest as its suffix. */
  ghost predicate IsCutTo(t: Trie, b: Path, part: string, k: nat, q: Path, suffix: string)
    requires b in t && k < |part| && IsKeyOf(t, b, part[..k])
  {
    q == KeyNode(t, b, part[..k]) && suffix == part[k + 1..] && q in t && Declared(t[q].branch.apis, suffix)
  }

  /** The last boundary before this one comes first. */
  lemma HeadsBefore(t: Trie, b: Path, part: string, boundary: nat, previous: nat)
    requires b in t && previous < boundary <= |part| && part[previous] == SUFFIX_BOUNDARY
    requires forall i | previous < i < boundary :: part[i] != SUFFIX_BOUNDARY
    ensures forall k :: IsLongestHead(t, b, part, boundary, k) <==>
                          if IsKeyOf(t, b, part[..previous]) then k == previous
                          else IsLongestHead(t, b, part, previous, k)
  {
    hide IsKeyOf;
  }

  lemma {:induction false} ScanMeans(t: Trie, b: Path, part: string, boundary: nat, q: Path, suffix: string)
    requires b in t && boundary <= |part|
    ensures BoundaryScan(t, b, part, boundary) == Some((q, suffix))
       <==> exists k | IsLongestHead(t, b, part, boundary, k) :: IsCutTo(t, b, part, k, q, suffix)
    decreases boundary
  {
    hide Lookup, Declared, IsKeyOf, KeyNode;
    var at := RFind(part[..boundary], SUFFIX_BOUNDARY);
    assert forall k | 0 <= k < boundary :: part[..boundary][k] == part[k];
    if at.Some? {
      var previous := at.value;
      LookupMeans(t, b, part[..previous]);
      HeadsBefore(t, b, part, boundary, previous);
      hide IsLongestHead;
      if IsKeyOf(t, b, part[..previous]) {
        assert IsLongestHead(t, b, part, boundary, previous);
      } else {
        ScanMeans(t, b, part, previous, q, suffix);
      }
    }
  }

  /** A part that is a key is found as it is. Of another, only the last may be cut: at the longest of
      its heads that is a key, if the rest is a suffix declared there. */
  lemma LongestHeadDecides(t: Trie, b: Path, part: string, isLast: bool, q: Path, suffix: string)
    requires b in t
    ensures FindConsiderSuffix(t, b, part, isLast) == Some((q, suffix))
       <==> if IsKeyOf(t, b, part) then q == KeyNode(t, b, part) && suffix == []
            else isLast && exists k | IsLongestHead(t, b, part, |part|, k) :: IsCutTo(t, b, part, k, q, suffix)
  {
    hide Lookup, Declared, IsKeyOf, KeyNode, IsLongestHead;
    LookupMeans(t, b, part);
    ScanMeans(t, b, part, |part|, q, suffix);
  }

  // ----- variables -----

  function AllSuffixes(apis: seq<Api>): seq<string>
  {
    if apis == [] then [] else apis[0].suffixes + AllSuffixes(apis[1..])
  }

  /** `suffix_extractor`: the parts with the suffix cut off the last one, and the suffix. */
  function Extract(apis: seq<Api>, parts: seq<string>, suffix: string): (seq<string>, string)
    requires parts != []
  {
    match FirstTail(CollectSuffixes(AllSuffixes(apis)), Last(parts))
    case None => (parts, suffix)
    case Some(s) => (Front(parts) + [CutTail(Last(parts), s)], s)
  }

  /** The binding an end variable makes of the parts from `n` on, and the suffix; None when it
      does not take that many parts. */
  function EndMatch(v: VarType, apis: seq<Api>, parts: seq<string>, n: nat,
                    suffix: string): (r: Option<(PathParam, string)>)
    requires parts != []
    ensures r.Some? ==> !v.NotVar?
  {
    var overflowed := n >= |parts|;
    var isLast := n == |parts| - 1;
    if v.Optional? && overflowed then Some((OptionParam(None), suffix))
    else if v.Optional? && isLast then
      var (pps, s) := Extract(apis, parts, suffix); Some((OptionParam(Some(pps[n])), s))
    else if v.Required? && isLast then
      var (pps, s) := Extract(apis, parts, suffix); Some((RequiredParam(pps[n]), s))
    else if v.EmptableVector? && overflowed then Some((VectorParam([]), suffix))
    else if (v.EmptableVector? || v.Vector?) && !overflowed then
      var (pps, s) := Extract(apis, parts, suffix); Some((VectorParam(pps[n..]), s))
    else None
  }

  /** A middle variable is bound to its part and put on the list at `pos`. */
  function WithMidVar(v: Path, name: string, part: string, n: nat, pos: nat, st: State): State
    requires pos <= |st.items|
  {
    State(st.items[..pos] + [Item(v, n + 1)] + st.items[pos..], st.args[name := RequiredParam(part)], st.suffix)
  }

  /** The loop over the variable children `vs`; middle variables go below `pos` items. */
  function TryVars(t: Trie, parts: seq<string>, n: nat, vs: seq<Path>, pos: nat, st: State): StepResult
    requires parts != [] && pos <= |st.items|
    requires forall v | v in vs :: v in t
    decreases |vs|
  {
    if vs == [] then Continue(st) else
      var v := vs[0];
      var b := t[v].branch;
      if !b.isMidVar then
        match EndMatch(b.varType, b.apis, parts, n, st.suffix)
        case None => TryVars(t, parts, n, vs[1..], pos, st)
        case Some((param, suffix)) => Done(Found(v, st.args[b.varType.name := param], suffix))
      else if b.varType.Required? then
        if n >= |parts| then Done(Panicked)
        else
          TryVars(t, parts, n, vs[1..], pos, WithMidVar(v, b.varType.name, parts[n], n, pos, st))
      else TryVars(t, parts, n, vs[1..], pos, st)
  }

  // ----- the worklist -----

  ghost predicate Known(t: Trie, items: seq<Item>)
  {
    forall i | 0 <= i < |items| :: items[i].branch in t
  }

  /** What one round finds for a branch among its fixed nodes; nothing once the parts are used up. */
  function FindFixed(t: Trie, parts: seq<string>, item: Item): Option<(Path, string)>
    requires item.branch in t
  {
    if item.part >= |parts| then None
    else FindConsiderSuffix(t, item.branch, parts[item.part], item.part == |parts| - 1)
  }

  /** One round of the loop. */
  function Step(t: Trie, parts: seq<string>, st: State): StepResult
    requires parts != [] && st.items != [] && Known(t, st.items) && Searchable(t)
  {
    var item := Last(st.items);
    var rest := Front(st.items);
    if item.part >= |parts| && t[item.branch].branch.apis != [] then Done(Found(item.branch, st.args, st.suffix))
    else
      match FindFixed(t, parts, item)
      case Some((q, suffix)) => Continue(State(rest + [Item(q, item.part + 1)], st.args, suffix))
      case None =>
        assert LinksOk(t, item.branch);
        TryVars(t, parts, item.part, t[item.branch].varChildren, |rest|, State(rest, st.args, st.suffix))
  }

  function Places(items: seq<Item>): (r: seq<Path>)
    ensures |r| == |items|
    ensures forall i | 0 <= i < |items| :: r[i] == items[i].branch
  {
    seq(|items|, i requires 0 <= i < |items| => items[i].branch)
  }

  /** The items are nodes of the tree in disjoint subtrees. */
  ghost predicate Live(t: Trie, st: State)
  {
    Searchable(t) && Stack(t.Keys, Places(st.items))
  }

  // ----- every round shrinks what is left to visit -----

  /** What a look-up finds lies properly below the branch. */
  lemma LookupBelow(t: Trie, b: Path, part: string)
    requires Searchable(t) && b in t && Lookup(t, b, part).Some?
    ensures
      var q := Lookup(t, b, part).value;
      && q in t && b < q && Last(q) == part
      && (q == b + [part] || (Front(q) != b && Anchor(Omissions(t), q) == b && t[q].branch.varType.NotVar?))
  {
    if b + [part] !in t {
      assert LinksOk(t, b);
      assert PassedOk(t, b, part);
    }
  }

  lemma {:induction false} ScanFinds(t: Trie, b: Path, part: string, boundary: nat)
    requires Searchable(t) && b in t && boundary <= |part| && BoundaryScan(t, b, part, boundary).Some?
    ensures
      var (q, suffix) := BoundaryScan(t, b, part, boundary).value;
      && q in t && b < q
      && part == Last(q) + [SUFFIX_BOUNDARY] + suffix
      && Lookup(t, b, Last(q)) == Some(q)
      && Declared(t[q].branch.apis, suffix)
    decreases boundary
  {
    hide Searchable, Lookup, Declared;
    var previous := RFind(part[..boundary], SUFFIX_BOUNDARY).value;
    if Lookup(t, b, part[..previous]).Some? {
      LookupBelow(t, b, part[..previous]);
      assert part == part[..previous] + [part[previous]] + part[previous + 1..];
    } else {
      ScanFinds(t, b, part, previous);
    }
  }

  /** What the search of a part finds: a node below whose key is the part, up to a declared suffix. */
  lemma FindFinds(t: Trie, b: Path, part: string, isLast: bool)
    requires Searchable(t) && b in t && FindConsiderSuffix(t, b, part, isLast).Some?
    ensures
      var (q, suffix) := FindConsiderSuffix(t, b, part, isLast).value;
      && q in t && b < q && Lookup(t, b, Last(q)) == Some(q)
      && ((part == Last(q) && suffix == [])
          || (isLast && part == Last(q) + [SUFFIX_BOUNDARY] + suffix && Declared(t[q].branch.apis, suffix)))
  {
    if Lookup(t, b, part).Some? {
      LookupBelow(t, b, part);
    } else {
      ScanFinds(t, b, part, |part|);
    }
  }

  /** Of two variables anchored at one node, none is below the other. */
  lemma VarsIncomparable(t: Trie, b: Path, v: Path, w: Path)
    requires v in t && CellOk(t, v) && !t[v].branch.varType.NotVar? && v != []
    requires w != [] && v != w
    requires Anchor(Omissions(t), v) == b && Anchor(Omissions(t), w) == b
    ensures !(v <= w)
  {
    assert forall n | |b| < n < |w| :: w[..n] in Omissions(t);
    assert v <= w <==> |v| <= |w| && v == w[..|v|];
  }

  /** The variables anchored at one node lie in disjoint subtrees below it. */
  lemma VarChildrenDisjoint(t: Trie, b: Path)
    requires Searchable(t) && b in t
    ensures Disjoint(t[b].varChildren)
    ensures forall v | v in t[b].varChildren :: v in t && b < v
  {
    var vs := t[b].varChildren;
    assert LinksOk(t, b);
    forall v, w | v in vs && w in vs && v != w ensures !(v <= w) {
      assert CellOk(t, v);
      VarsIncomparable(t, b, v, w);
    }
    forall i, j | 0 <= i < j < |vs| ensures !(vs[i] <= vs[j]) && !(vs[j] <= vs[i]) {
      assert vs[i] in vs && vs[j] in vs && vs[i] != vs[j];
    }
  }

  /** The middle variables among `vs`, last first. */
  ghost function MidVars(t: Trie, vs: seq<Path>): (r: seq<Path>)
    requires forall v | v in vs :: v in t
    ensures forall v | v in r :: v in vs
  {
    if vs == [] then [] else
      MidVars(t, vs[1..]) + (if t[vs[0]].branch.isMidVar && t[vs[0]].branch.varType.Required? then [vs[0]] else [])
  }

  lemma PlacesInsert(items: seq<Item>, pos: nat, item: Item)
    requires pos <= |items|
    ensures
      var next := Places(items[..pos] + [item] + items[pos..]);
      next[..pos] == Places(items)[..pos] && next[pos..] == [item.branch] + Places(items)[pos..]
  {
  }

  lemma {:induction false} TryVarsPlaces(t: Trie, parts: seq<string>, n: nat, vs: seq<Path>, pos: nat, st: State)
    requires parts != [] && pos <= |st.items|
    requires forall v | v in vs :: v in t
    requires TryVars(t, parts, n, vs, pos, st).Continue?
    ensures Places(TryVars(t, parts, n, vs, pos, st).state.items)
         == Places(st.items)[..pos] + MidVars(t, vs) + Places(st.items)[pos..]
    ensures TryVars(t, parts, n, vs, pos, st).state.suffix == st.suffix
    decreases |vs|
  {
    hide EndMatch, Places, Extract, Last;
    if vs != [] {
      var b := t[vs[0]].branch;
      if b.isMidVar && b.varType.Required? {
        var next := WithMidVar(vs[0], b.varType.name, parts[n], n, pos, st);
        TryVarsPlaces(t, parts, n, vs[1..], pos, next);
        PlacesInsert(st.items, pos, Item(vs[0], n + 1));
      } else {
        TryVarsPlaces(t, parts, n, vs[1..], pos, st);
      }
    }
  }

  lemma {:induction false} MidVarsDisjoint(t: Trie, vs: seq<Path>)
    requires forall v | v in vs :: v in t
    requires Disjoint(vs)
    ensures Disjoint(MidVars(t, vs))
  {
    if vs != [] {
      MidVarsDisjoint(t, vs[1..]);
      var mids := MidVars(t, vs[1..]);
      forall i | 0 <= i < |mids| ensures !(mids[i] <= vs[0]) && !(vs[0] <= mids[i]) {
        assert mids[i] in vs[1..];
        var j :| 0 < j < |vs| && vs[j] == mids[i];
      }
    }
  }

  /** What one round puts back for the branch it takes. */
  ghost function Added(t: Trie, parts: seq<string>, item: Item): (added: seq<Path>)
    requires Searchable(t) && item.branch in t
  {
    match FindFixed(t, parts, item)
    case Some((q, _)) => [q]
    case None =>
      assert LinksOk(t, item.branch);
      MidVars(t, t[item.branch].varChildren)
  }

  lemma AddedIsDisjoint(t: Trie, parts: seq<string>, item: Item)
    requires Searchable(t) && item.branch in t
    ensures Disjoint(Added(t, parts, item))
    ensures forall p | p in Added(t, parts, item) :: p in t && item.branch < p
  {
    if FindFixed(t, parts, item).Some? {
      FindFinds(t, item.branch, parts[item.part], item.part == |parts| - 1);
    } else {
      VarChildrenDisjoint(t, item.branch);
      MidVarsDisjoint(t, t[item.branch].varChildren);
    }
  }

  lemma PlacesSnoc(items: seq<Item>, item: Item)
    ensures Places(items + [item]) == Places(items) + [item.branch]
  {
  }

  lemma StepAdds(t: Trie, parts: seq<string>, st: State)
    requires parts != [] && st.items != [] && Searchable(t)
    requires Known(t, st.items) && Step(t, parts, st).Continue?
    ensures Places(Step(t, parts, st).state.items) == Places(Front(st.items)) + Added(t, parts, Last(st.items))
  {
    var item, rest := Last(st.items), Front(st.items);
    match FindFixed(t, parts, item)
    case Some((q, suffix)) =>
      PlacesSnoc(rest, Item(q, item.part + 1));
    case None =>
      assert LinksOk(t, item.branch);
      TryVarsPlaces(t, parts, item.part, t[item.branch].varChildren, |rest|, State(rest, st.args, st.suffix));
      var places := Places(rest);
      assert places[..|rest|] == places && places[|rest|..] == [];
  }

  /** The items stay disjoint, and the branch taken is never met again. */
  lemma StepShrinks(t: Trie, parts: seq<string>, st: State)
    requires parts != [] && st.items != [] && Live(t, st)
    requires Known(t, st.items) && Step(t, parts, st).Continue?
    ensures
      var next := Step(t, parts, st).state;
      && Live(t, next)
      && Covered(t.Keys, Places(next.items)) < Covered(t.Keys, Places(st.items))
      && Last(st.items).branch in Covered(t.Keys, Places(st.items)) - Covered(t.Keys, Places(next.items))
  {
    var added := Added(t, parts, Last(st.items));
    var rest, b := Places(Front(st.items)), Last(st.items).branch;
    PlacesSnoc(Front(st.items), Last(st.items));
    assert st.items == Front(st.items) + [Last(st.items)];
    StepAdds(t, parts, st);
    AddedIsDisjoint(t, parts, Last(st.items));
    ReplaceKeepsDisjoint(t.Keys, rest, b, added);
    ReplaceShrinks(t.Keys, rest, b, added);
    forall p | p in rest + added ensures p in t.Keys {
      assert p in rest ==> p in Places(st.items);
    }
  }

  lemma LiveIsKnown(t: Trie, st: State)
    requires Live(t, st)
    ensures Known(t, st.items)
  {
    forall i | 0 <= i < |st.items| ensures st.items[i].branch in t {
      assert Places(st.items)[i] in Places(st.items);
    }
  }

  /** The run of the loop to its end. */
  ghost function Run(t: Trie, parts: seq<string>, st: State): Outcome
    requires parts != [] && Live(t, st)
    decreases Covered(t.Keys, Places(st.items))
  {
    if st.items == [] then NotFound else
      LiveIsKnown(t, st);
      match Step(t, parts, st)
      case Done(outcome) => outcome
      case Continue(next) => StepShrinks(t, parts, st); Run(t, parts, next)
  }

  /** The branches the run takes, in order. */
  ghost function Taken(t: Trie, parts: seq<string>, st: State): seq<Path>
    requires parts != [] && Live(t, st)
    decreases Covered(t.Keys, Places(st.items))
  {
    if st.items == [] then [] else
      LiveIsKnown(t, st);
      match Step(t, parts, st)
      case Done(_) => [Last(st.items).branch]
      case Continue(next) => StepShrinks(t, parts, st); [Last(st.items).branch] + Taken(t, parts, next)
  }

  const START: State := State([Item([], 0)], map[], [])

  lemma StartIsLive(t: Trie)
    requires Searchable(t)
    ensures Live(t, START)
  {
  }

  /** `match_var_path`. */
  ghost function MatchVarPath(t: Trie, parts: seq<string>): Outcome
    requires parts != [] && Searchable(t)
  {
    Run(t, parts, START)
  }

  lemma TakenUnfold(t: Trie, parts: seq<string>, st: State)
    requires parts != [] && Live(t, st) && st.items != []
    ensures Known(t, st.items)
    ensures Last(st.items).branch in Covered(t.Keys, Places(st.items))
    ensures Step(t, parts, st).Done? ==> Taken(t, parts, st) == [Last(st.items).branch]
    ensures Step(t, parts, st).Continue? ==>
              var next := Step(t, parts, st).state;
              && Live(t, next)
              && Covered(t.Keys, Places(next.items)) < Covered(t.Keys, Places(st.items))
              && Last(st.items).branch !in Covered(t.Keys, Places(next.items))
              && Taken(t, parts, st) == [Last(st.items).branch] + Taken(t, parts, next)
  {
    LiveIsKnown(t, st);
    assert Places(st.items)[|st.items| - 1] == Last(st.items).branch;
    assert Last(st.items).branch in Places(st.items);
    if Step(t, parts, st).Continue? {
      StepShrinks(t, parts, st);
    }
  }

  /** The run takes only covered branches, and each at most once. */
  lemma {:induction false} TakenOnce(t: Trie, parts: seq<string>, st: State)
    requires parts != [] && Live(t, st)
    ensures forall p | p in Taken(t, parts, st) :: p in Covered(t.Keys, Places(st.items))
    ensures Distinct(Taken(t, parts, st))
    decreases Covered(t.Keys, Places(st.items))
  {
    hide Covered, Searchable, Step, Stack;
    if st.items != [] {
      TakenUnfold(t, parts, st);
      if Step(t, parts, st).Continue? {
        TakenOnce(t, parts, Step(t, parts, st).state);
      }
    }
  }

  lemma DistinctFits<T>(s: seq<T>, all: set<T>)
    requires Distinct(s) && forall x | x in s :: x in all
    ensures |s| <= |all|
  {
    if s != [] {
      assert s == Front(s) + [Last(s)];
      DistinctFits(Front(s), all - {Last(s)});
    }
  }

  /** The search takes no branch twice, so it ends within as many rounds as the tree has nodes. */
  lemma SearchIsLinear(t: Trie, parts: seq<string>)
    requires parts != [] && Searchable(t)
    ensures Distinct(Taken(t, parts, START))
    ensures |Taken(t, parts, START)| <= |t.Keys|
  {
    TakenOnce(t, parts, START);
    DistinctFits(Taken(t, parts, START), t.Keys);
  }

  // ----- one round of a run -----

  /** The run of `st` is the run of `next`, with less left to visit. */
  ghost predicate GoesOn(t: Trie, parts: seq<string>, st: State, next: State)
    requires parts != [] && Live(t, st)
  {
    && Live(t, next)
    && Covered(t.Keys, Places(next.items)) < Covered(t.Keys, Places(st.items))
    && Run(t, parts, st) == Run(t, parts, next)
  }

  lemma StepGoesOn(t: Trie, parts: seq<string>, st: State)
    requires Live(t, st) && st.items != [] && parts != []
    ensures Known(t, st.items)
    ensures Step(t, parts, st).Done? ==> Run(t, parts, st) == Step(t, parts, st).outcome
    ensures Step(t, parts, st).Continue? ==> GoesOn(t, parts, st, Step(t, parts, st).state)
  {
    LiveIsKnown(t, st);
    if Step(t, parts, st).Continue? { StepShrinks(t, parts, st); }
  }

  lemma VarsAreKnown(t: Trie, b: Path)
    requires Searchable(t) && b in t
    ensures forall v | v in t[b].varChildren :: v in t
  {
    assert LinksOk(t, b);
  }

  /** How the run goes on from a state, by the kind of step its last item takes. */
  lemma RunUnfold(t: Trie, parts: seq<string>, st: State)
    requires Live(t, st) && st.items != [] && parts != []
    ensures Known(t, st.items)
    ensures
      var item, rest := Last(st.items), State(Front(st.items), st.args, st.suffix);
      var find := FindFixed(t, parts, item);
      if item.part >= |parts| && t[item.branch].branch.apis != [] then
        Run(t, parts, st) == Found(item.branch, st.args, st.suffix)
      else if find.Some? then
        GoesOn(t, parts, st, State(rest.items + [Item(find.value.0, item.part + 1)], st.args, find.value.1))
      else
        && (forall v | v in t[item.branch].varChildren :: v in t)
        && var r := TryVars(t, parts, item.part, t[item.branch].varChildren, |rest.items|, rest);
           && (r.Done? ==> Run(t, parts, st) == r.outcome)
           && (r.Continue? ==> GoesOn(t, parts, st, r.state))
  {
    hide Stack, FindConsiderSuffix, TryVars, GoesOn, Run, Searchable, CellOk, LinksOk;
    StepGoesOn(t, parts, st);
    VarsAreKnown(t, Last(st.items).branch);
  }

  /** A round that finds a fixed node goes on with it. */
  lemma FixedRound(t: Trie, parts: seq<string>, st: State, q: Path, suffix: string)
    requires Live(t, st) && st.items != [] && parts != [] && Known(t, st.items)
    requires FindFixed(t, parts, Last(st.items)) == Some((q, suffix))
    ensures GoesOn(t, parts, st, State(Front(st.items) + [Item(q, Last(st.items).part + 1)], st.args, suffix))
  {
    hide Stack, FindConsiderSuffix, TryVars, GoesOn, Run, Searchable, CellOk, LinksOk;
    StepGoesOn(t, parts, st);
  }
}
