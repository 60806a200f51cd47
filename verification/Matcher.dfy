/** `match_var_path` and `find_consider_suffix` on the tree itself. */
module Matchers {
  import opened Text
  import opened Apis
  import opened Branches
  import opened Frontier
  import opened Wiring
  import opened Search
  import opened ATrees
  import opened WiringPass

  /** What `match_var_path` hands back: the path of the branch, the bindings and the suffix. */
  datatype MatchResult =
    | Matched(path: string, args: map<string, PathParam>, suffix: string)
    | Unmatched
    | Crashed

  /** The hand-back for an outcome of the search. */
  ghost function ResultOf(t: Trie, outcome: Outcome): MatchResult
  {
    match outcome
    case Found(q, args, suffix) => if q in t then Matched(t[q].branch.path, args, suffix) else Unmatched
    case NotFound => Unmatched
    case Panicked => Crashed
  }

  /** The tree on the heap is this trie. */
  ghost predicate Holds(nodes: Nodes, t: Trie)
    reads nodes.Values
  {
    IsTree(nodes) && AllInside(nodes) && View(nodes) == t
  }

  lemma HoldsAt(nodes: Nodes, t: Trie, n: ATree)
    requires Holds(nodes, t) && n.keys in nodes && nodes[n.keys] == n
    ensures n.keys in t && t[n.keys].branch == n.element
    ensures t[n.keys].varChildren == KeysOf(n.varChildren) && OnTree(n.varChildren, nodes)
    ensures forall k :: k in n.children <==> n.keys + [k] in t
    ensures forall k | k in n.children :: n.keys + [k] in nodes && nodes[n.keys + [k]] == n.children[k]
    ensures forall k | k in n.children :: n.children[k].keys == n.keys + [k]
    ensures t[n.keys].passed.Keys == n.omittedPassedChildren.Keys
    ensures forall k | k in n.omittedPassedChildren ::
              && t[n.keys].passed[k] == n.omittedPassedChildren[k].keys
              && n.omittedPassedChildren[k].keys in nodes
              && nodes[n.omittedPassedChildren[k].keys] == n.omittedPassedChildren[k]
  {
    NodeOk(nodes, n.keys);
    KeysTellNodes(nodes);
    hide IsTree, KeysOf;
    assert n in nodes.Values;
    assert LinksInside(nodes, n);
    assert t[n.keys] == CellOf(n);
  }

  /** The children first, the omission-passed children second. */
  method LookUp(n: ATree, part: string, ghost nodes: Nodes, ghost t: Trie) returns (r: ATree?)
    requires Holds(nodes, t) && n.keys in nodes && nodes[n.keys] == n && n.keys in t
    ensures r == null <==> Lookup(t, n.keys, part).None?
    ensures r != null ==> Lookup(t, n.keys, part) == Some(r.keys) && r.keys in nodes && nodes[r.keys] == r
  {
    HoldsAt(nodes, t, n);
    hide Holds;
    if part in n.children {
      r := n.children[part];
    } else if part in n.omittedPassedChildren {
      r := n.omittedPassedChildren[part];
    } else {
      r := null;
    }
  }

  /** `find_consider_suffix`. */
  method FindNode(n: ATree, part: string, isLast: bool, ghost nodes: Nodes, ghost t: Trie)
    returns (r: ATree?, suffix: string)
    requires Holds(nodes, t) && n.keys in nodes && nodes[n.keys] == n && n.keys in t
    ensures r == null <==> FindConsiderSuffix(t, n.keys, part, isLast).None?
    ensures r != null ==>
              && FindConsiderSuffix(t, n.keys, part, isLast) == Some((r.keys, suffix))
              && r.keys in nodes && nodes[r.keys] == r
  {
    hide Holds, Lookup, Declared;
    suffix := [];
    r := LookUp(n, part, nodes, t);
    if r == null && isLast {
      var boundary: nat := |part|;
      while true
        invariant boundary <= |part|
        invariant BoundaryScan(t, n.keys, part, boundary) == BoundaryScan(t, n.keys, part, |part|)
        decreases boundary
      {
        var at := RFind(part[..boundary], SUFFIX_BOUNDARY);
        if at.None? { return null, []; }
        var previous := at.value;
        r := LookUp(n, part[..previous], nodes, t);
        if r != null {
          HoldsAt(nodes, t, r);
          suffix := part[previous + 1..];
          if !Declared(r.element.apis, suffix) { r := null; }
          return;
        }
        boundary := previous;
      }
    }
  }

  // ----- the loop -----

  ghost function ItemsOf(items: seq<(ATree, nat)>): (r: seq<Item>)
    ensures |r| == |items| && forall i | 0 <= i < |items| :: r[i] == Item(items[i].0.keys, items[i].1)
  {
    seq(|items|, i requires 0 <= i < |items| => Item(items[i].0.keys, items[i].1))
  }

  ghost predicate ItemsInside(items: seq<(ATree, nat)>, nodes: Nodes)
  {
    forall i | 0 <= i < |items| :: items[i].0.keys in nodes && nodes[items[i].0.keys] == items[i].0
  }

  ghost function StateOf(items: seq<(ATree, nat)>, args: map<string, PathParam>, suffix: string): State
  {
    State(ItemsOf(items), args, suffix)
  }

  /** What the loop over the variable children does next. */
  datatype Next = Goes(items: seq<(ATree, nat)>, args: map<string, PathParam>) | Ends(result: MatchResult)

  lemma InsertedState(items: seq<(ATree, nat)>, v: ATree, part: nat, pos: nat)
    requires pos <= |items|
    ensures ItemsOf(items[..pos] + [(v, part)] + items[pos..])
        == ItemsOf(items)[..pos] + [Item(v.keys, part)] + ItemsOf(items)[pos..]
  {
  }

  /** The loop over the variable children of a branch. */
  method TryVariables(n: ATree, parts: seq<string>, part: nat, rest: seq<(ATree, nat)>, args0: map<string, PathParam>,
                      suffix: string, ghost nodes: Nodes, ghost t: Trie)
    returns (next: Next)
    requires Holds(nodes, t) && n.keys in nodes && nodes[n.keys] == n && n.keys in t && parts != []
    requires forall v | v in t[n.keys].varChildren :: v in t
    requires ItemsInside(rest, nodes)
    ensures
      var r := TryVars(t, parts, part, t[n.keys].varChildren, |rest|, StateOf(rest, args0, suffix));
      && (next.Goes? ==> r == Continue(StateOf(next.items, next.args, suffix)) && ItemsInside(next.items, nodes))
      && (next.Ends? ==> r.Done? && next.result == ResultOf(t, r.outcome))
  {
    hide Holds, EndMatch, ItemsOf, KeysOf;
    HoldsAt(nodes, t, n);
    var vs := n.varChildren;
    var insertPos := |rest|;
    var items: seq<(ATree, nat)>, args := rest, args0;
    var i := 0;
    ghost var all := t[n.keys].varChildren;
    assert all[0..] == all;
    while i < |vs|
      invariant 0 <= i <= |vs| && |items| >= insertPos && ItemsInside(items, nodes)
      invariant forall v | v in all[i..] :: v in t
      invariant TryVars(t, parts, part, all[i..], insertPos, StateOf(items, args, suffix))
             == TryVars(t, parts, part, all, insertPos, StateOf(rest, args0, suffix))
    {
      var v := vs[i];
      assert v in vs && all[i] == v.keys && all[i..][0] == v.keys && all[i..][1..] == all[i + 1..];
      HoldsAt(nodes, t, v);
      var b := v.element;
      if !b.isMidVar {
        match EndMatch(b.varType, b.apis, parts, part, suffix) {
          case None =>
          case Some((param, s)) =>
            return Ends(Matched(b.path, args[b.varType.name := param], s));
        }
      } else if b.varType.Required? {
        if part >= |parts| { return Ends(Crashed); }
        InsertedState(items, v, part + 1, insertPos);
        args := args[b.varType.name := RequiredParam(parts[part])];
        items := items[..insertPos] + [(v, part + 1)] + items[insertPos..];
      }
      i := i + 1;
    }
    next := Goes(items, args);
  }

  /** The rounds so far and the nodes still covered are no more than the nodes. */
  ghost predicate RoundsLeft(t: Trie, rounds: nat, st: State)
  {
    rounds + |Covered(t.Keys, Places(st.items))| <= |t.Keys|
  }

  lemma Fits(a: set<Path>, b: set<Path>)
    requires a <= b
    ensures |a| <= |b|
  {
    if a != {} {
      var x :| x in a;
      Fits(a - {x}, b - {x});
    }
  }

  lemma Smaller(a: set<Path>, b: set<Path>)
    requires a < b
    ensures |a| < |b|
  {
    var x :| x in b && x !in a;
    assert a <= b - {x};
    Fits(a, b - {x});
  }

  lemma OneMoreRound(t: Trie, rounds: nat, st: State, next: State)
    requires RoundsLeft(t, rounds, st) && Covered(t.Keys, Places(next.items)) < Covered(t.Keys, Places(st.items))
    ensures RoundsLeft(t, rounds + 1, next)
  {
    Smaller(Covered(t.Keys, Places(next.items)), Covered(t.Keys, Places(st.items)));
  }

  lemma LastRound(t: Trie, rounds: nat, st: State)
    requires RoundsLeft(t, rounds, st) && Live(t, st) && st.items != []
    ensures rounds + 1 <= |t.Keys|
  {
    var places := Places(st.items);
    assert places[|places| - 1] in places && places[|places| - 1] in t.Keys;
    assert places[|places| - 1] in Covered(t.Keys, places);
  }

  lemma FirstRound(t: Trie, st: State)
    ensures RoundsLeft(t, 0, st)
  {
    Fits(Covered(t.Keys, Places(st.items)), t.Keys);
  }

  /** What one round of the search comes to. */
  datatype Round =
    | Again(items: seq<(ATree, nat)>, args: map<string, PathParam>, suffix: string)
    | Over(result: MatchResult)

  lemma Popped(t: Trie, items: seq<(ATree, nat)>, args: map<string, PathParam>, suffix: string)
    requires items != [] && Live(t, StateOf(items, args, suffix))
    ensures
      var st := StateOf(items, args, suffix);
      && st.items != [] && Known(t, st.items) && Last(st.items) == Item(Last(items).0.keys, Last(items).1)
      && Front(st.items) == ItemsOf(Front(items))
          && StateOf(Front(items), args, suffix) == State(Front(st.items), args, suffix)
  {
    hide Searchable;
    LiveIsKnown(t, StateOf(items, args, suffix));
    assert ItemsOf(Front(items)) == Front(ItemsOf(items));
  }

  lemma Pushed(rest: seq<(ATree, nat)>, sub: ATree, part: nat, args: map<string, PathParam>, suffix: string)
    ensures StateOf(rest + [(sub, part)], args, suffix) == State(ItemsOf(rest) + [Item(sub.keys, part)], args, suffix)
    ensures |ItemsOf(rest)| == |rest|
  {
    assert ItemsOf(rest + [(sub, part)]) == ItemsOf(rest) + [Item(sub.keys, part)];
  }

  /** One round: the last item is taken, and tried. */
  method TakeItem(parts: seq<string>, items: seq<(ATree, nat)>, args: map<string, PathParam>, suffix: string,
                  ghost nodes: Nodes, ghost t: Trie)
    returns (round: Round)
    requires Holds(nodes, t) && parts != [] && items != [] && ItemsInside(items, nodes)
        && Live(t, StateOf(items, args, suffix))
    ensures round.Over? ==> round.result == ResultOf(t, Run(t, parts, StateOf(items, args, suffix)))
    ensures round.Again? ==>
              && ItemsInside(round.items, nodes)
              && GoesOn(t, parts, StateOf(items, args, suffix), StateOf(round.items, round.args, round.suffix))
  {
    hide Holds, Searchable, Covered, FindConsiderSuffix, TryVars, Live, Run, Step, ItemsOf;
    var (branch, part) := Last(items);
    var rest := Front(items);
    Popped(t, items, args, suffix);
    RunUnfold(t, parts, StateOf(items, args, suffix));
    HoldsAt(nodes, t, branch);
    var isLast, isOverflowed := part == |parts| - 1, part >= |parts|;
    if isOverflowed && branch.element.apis != [] {
      return Over(Matched(branch.element.path, args, suffix));
    }
    var sub: ATree?, s := null, [];
    if !isOverflowed {
      sub, s := FindNode(branch, parts[part], isLast, nodes, t);
    }
    if sub != null {
      Pushed(rest, sub, part + 1, args, s);
      return Again(rest + [(sub, part + 1)], args, s);
    }
    var next := TryVariables(branch, parts, part, rest, args, suffix, nodes, t);
    match next {
      case Ends(result) => round := Over(result);
      case Goes(items', args') => round := Again(items', args', suffix);
    }
  }

  lemma NothingToRun(t: Trie, parts: seq<string>, items: seq<(ATree, nat)>, args: map<string, PathParam>,
                     suffix: string)
    requires items == [] && parts != [] && Live(t, StateOf(items, args, suffix))
    ensures Run(t, parts, StateOf(items, args, suffix)) == NotFound
  {
  }

  lemma StartState(root: ATree, items: seq<(ATree, nat)>)
    requires root.keys == [] && items == [(root, 0)]
    ensures StateOf(items, map[], []) == START
  {
  }

  /** `match_var_path` on the tree: it hands back what the search finds, within as many rounds as
      the tree has nodes. */
  method MatchPath(root: ATree, path: string, ghost nodes: Nodes, ghost t: Trie)
    returns (r: MatchResult, ghost rounds: nat)
    requires Holds(nodes, t) && Searchable(t) && root.keys == [] && [] in nodes && nodes[[]] == root
    ensures r == ResultOf(t, MatchVarPath(t, Keys(path)))
    ensures rounds <= |t.Keys|
  {
    hide Holds, Searchable, Covered, Live, Keys, Run, ItemsOf, RoundsLeft;
    rounds := 0;
    var parts := Keys(path);
    var items: seq<(ATree, nat)> := [(root, 0)];
    var args: map<string, PathParam>, suffix: string := map[], [];
    StartIsLive(t);
    StartState(root, items);
    FirstRound(t, StateOf(items, args, suffix));
    while items != []
      invariant RoundsLeft(t, rounds, StateOf(items, args, suffix)) && rounds <= |t.Keys|
      invariant ItemsInside(items, nodes) && Live(t, StateOf(items, args, suffix))
      invariant Run(t, parts, StateOf(items, args, suffix)) == MatchVarPath(t, parts)
      decreases Covered(t.Keys, Places(StateOf(items, args, suffix).items))
    {
      ghost var before := StateOf(items, args, suffix);
      LastRound(t, rounds, before);
      var round := TakeItem(parts, items, args, suffix, nodes, t);
      rounds := rounds + 1;
      match round {
        case Over(result) => return result, rounds;
        case Again(items', args', suffix') => items, args, suffix := items', args', suffix';
      }
      OneMoreRound(t, rounds - 1, before, StateOf(items, args, suffix));
    }
    NothingToRun(t, parts, items, args, suffix);
    r := Unmatched;
  }
}
