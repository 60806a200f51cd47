/** Worklists over a tree: the order in which a `BTreeMap` of children is walked, and the
    measure that makes every worklist search linear in the number of nodes. */
module Frontier {
  import opened Text
  import opened Branches

  // ----- ordered keys -----

  ghost predicate IsLeast(m: string, s: set<string>)
  {
    m in s && forall x | x in s :: StrLeq(m, x)
  }

  lemma LeastOfOneMore(s: set<string>, m: string, y: string) returns (least: string)
    requires IsLeast(m, s)
    ensures IsLeast(least, s + {y})
  {
    StrLeqTotal(m, y);
    StrLeqTotal(y, y);
    least := if StrLeq(m, y) then m else y;
    forall x | x in s + {y} ensures StrLeq(least, x) {
      if x != y && least == y { StrLeqTransitive(y, m, x); }
    }
  }

  lemma {:induction false} MinExists(s: set<string>)
    requires s != {}
    ensures exists m :: IsLeast(m, s)
  {
    var y :| y in s;
    if s == {y} {
      StrLeqTotal(y, y);
      assert IsLeast(y, s);
    } else {
      MinExists(s - {y});
      var m :| IsLeast(m, s - {y});
      var least := LeastOfOneMore(s - {y}, m, y);
      assert s - {y} + {y} == s;
    }
  }

  lemma MinUnique(s: set<string>)
    ensures forall m, n |
              && m in s && (forall x | x in s :: StrLeq(m, x))
              && n in s && (forall x | x in s :: StrLeq(n, x)) :: m == n
  {
    forall m, n |
      && m in s && (forall x | x in s :: StrLeq(m, x))
      && n in s && (forall x | x in s :: StrLeq(n, x))
      ensures m == n
    {
      StrLeqAntisymmetric(m, n);
    }
  }

  /** The first key of an ordered set of keys. */
  function MinString(s: set<string>): (m: string)
    requires s != {}
    ensures m in s && forall x | x in s :: StrLeq(m, x)
  {
    MinExists(s);
    MinUnique(s);
    var m :| m in s && forall x | x in s :: StrLeq(m, x);
    m
  }

  /** The keys of a `BTreeMap`, in order. */
  function Ascending(s: set<string>): (r: seq<string>)
    ensures |r| == |s|
    ensures forall x :: x in r <==> x in s
    ensures forall i, j | 0 <= i < j < |r| :: r[i] != r[j] && StrLeq(r[i], r[j])
  {
    if s == {} then [] else
      var m := MinString(s);
      [m] + Ascending(s - {m})
  }

  // ----- ordered paths -----

  /** The order of `Vec<&str>`: the first differing key decides, a prefix comes first. */
  predicate PathLeq(a: Path, b: Path)
  {
    a == [] || (b != [] && (if a[0] == b[0] then PathLeq(a[1..], b[1..]) else StrLeq(a[0], b[0])))
  }

  lemma {:induction false} PathLeqTotal(a: Path, b: Path)
    ensures PathLeq(a, b) || PathLeq(b, a)
  {
    if a != [] && b != [] {
      PathLeqTotal(a[1..], b[1..]);
      StrLeqTotal(a[0], b[0]);
    }
  }

  lemma {:induction false} PathLeqAntisymmetric(a: Path, b: Path)
    requires PathLeq(a, b) && PathLeq(b, a)
    ensures a == b
  {
    hide StrLeq;
    if a != [] {
      if a[0] != b[0] {
        StrLeqAntisymmetric(a[0], b[0]);
      } else {
        PathLeqAntisymmetric(a[1..], b[1..]);
        assert a == [a[0]] + a[1..] && b == [b[0]] + b[1..];
      }
    }
  }

  lemma {:induction false} PathLeqTransitive(a: Path, b: Path, c: Path)
    requires PathLeq(a, b) && PathLeq(b, c)
    ensures PathLeq(a, c)
  {
    hide StrLeq;
    if a != [] {
      if a[0] == b[0] && b[0] == c[0] {
        PathLeqTransitive(a[1..], b[1..], c[1..]);
      } else if a[0] != b[0] && b[0] != c[0] {
        StrLeqTransitive(a[0], b[0], c[0]);
        if a[0] == c[0] { StrLeqAntisymmetric(a[0], b[0]); }
      }
    }
  }

  /** A prefix sorts before its extensions. */
  lemma {:induction false} PrefixSortsFirst(a: Path, b: Path)
    requires a <= b
    ensures PathLeq(a, b)
  {
    if a != [] {
      PrefixSortsFirst(a[1..], b[1..]);
    }
  }

  ghost predicate IsLeastPath(p: Path, s: set<Path>)
  {
    p in s && forall q | q in s :: PathLeq(p, q)
  }

  lemma LeastPathOfOneMore(s: set<Path>, m: Path, y: Path) returns (least: Path)
    requires IsLeastPath(m, s)
    ensures IsLeastPath(least, s + {y})
  {
    hide PathLeq;
    PathLeqTotal(m, y);
    PathLeqTotal(y, y);
    least := if PathLeq(m, y) then m else y;
    forall q | q in s + {y} ensures PathLeq(least, q) {
      if q != y && least == y { PathLeqTransitive(y, m, q); }
    }
  }

  lemma {:induction false} LeastPathExists(s: set<Path>)
    requires s != {}
    ensures exists p :: IsLeastPath(p, s)
  {
    hide PathLeq;
    var y :| y in s;
    if s == {y} {
      PathLeqTotal(y, y);
      assert IsLeastPath(y, s);
    } else {
      LeastPathExists(s - {y});
      var m :| IsLeastPath(m, s - {y});
      var least := LeastPathOfOneMore(s - {y}, m, y);
      assert s - {y} + {y} == s;
    }
  }

  // ----- subtrees -----

  /** Every non-empty path has its parent in the set, and the root is there. */
  ghost predicate Rooted(nodes: set<Path>)
  {
    [] in nodes && forall p | p in nodes && p != [] :: Front(p) in nodes
  }

  lemma {:induction false} RootedPrefix(nodes: set<Path>, p: Path, n: nat)
    requires Rooted(nodes) && p in nodes && n <= |p|
    ensures p[..n] in nodes
    decreases |p|
  {
    if n == |p| {
      assert p[..n] == p;
    } else {
      RootedPrefix(nodes, Front(p), n);
      assert Front(p)[..n] == p[..n];
    }
  }

  ghost predicate HasKid(nodes: set<Path>, p: Path)
  {
    exists q | q in nodes && q != [] :: Front(q) == p
  }

  lemma ExtensionHasKid(nodes: set<Path>, p: Path, longer: Path)
    requires Rooted(nodes) && longer in nodes && p < longer
    ensures longer[..|p| + 1] in nodes && Front(longer[..|p| + 1]) == p && HasKid(nodes, p)
  {
    RootedPrefix(nodes, longer, |p| + 1);
    assert Front(longer[..|p| + 1]) == p;
  }

  /** No item lies in the subtree of another. */
  ghost predicate Disjoint(items: seq<Path>)
  {
    forall i, j | 0 <= i < j < |items| :: !(items[i] <= items[j]) && !(items[j] <= items[i])
  }

  /** The nodes in the subtrees of the items. */
  ghost function Covered(nodes: set<Path>, items: seq<Path>): set<Path>
  {
    set q | q in nodes && exists i | 0 <= i < |items| :: items[i] <= q
  }

  /** Two prefixes of one path are comparable. */
  lemma PrefixesCompare(a: Path, b: Path, q: Path)
    requires a <= q && b <= q
    ensures a <= b || b <= a
  {
    assert q[..|a|] == a && q[..|b|] == b;
    if |a| <= |b| { assert b[..|a|] == a; } else { assert a[..|b|] == b; }
  }

  /** One round of a worklist: `b` is taken, disjoint proper descendants of it are put back. */
  ghost predicate Replaces(nodes: set<Path>, rest: seq<Path>, b: Path, added: seq<Path>)
  {
    && Disjoint(rest + [b])
    && Disjoint(added)
    && b in nodes
    && (forall p | p in added :: p in nodes && b < p)
  }

  lemma ReplaceKeepsDisjoint(nodes: set<Path>, rest: seq<Path>, b: Path, added: seq<Path>)
    requires Replaces(nodes, rest, b, added)
    ensures Disjoint(rest + added)
  {
    var items, was := rest + added, rest + [b];
    forall i, j | 0 <= i < j < |items| ensures !(items[i] <= items[j]) && !(items[j] <= items[i]) {
      if j < |rest| {
        assert was[i] == rest[i] && was[j] == rest[j];
      } else {
        assert items[j] == added[j - |rest|];
        assert items[j] in added;
        if i < |rest| {
          assert was[i] == rest[i] && was[|rest|] == b;
          if items[i] <= items[j] { PrefixesCompare(items[i], b, items[j]); }
        } else {
          assert items[i] == added[i - |rest|];
        }
      }
    }
  }

  /** The round shrinks the covered nodes: `b` itself is never met again. */
  lemma ReplaceShrinks(nodes: set<Path>, rest: seq<Path>, b: Path, added: seq<Path>)
    requires Replaces(nodes, rest, b, added)
    ensures Covered(nodes, rest + added) < Covered(nodes, rest + [b])
    ensures b !in Covered(nodes, rest + added)
    ensures b in Covered(nodes, rest + [b])
  {
    var items, was := rest + added, rest + [b];
    assert was[|rest|] == b;
    assert b in Covered(nodes, was);
    forall q | q in Covered(nodes, items) ensures q in Covered(nodes, was) && q != b {
      var i :| 0 <= i < |items| && items[i] <= q;
      if i < |rest| {
        assert was[i] == rest[i];
      } else {
        assert items[i] in added;
      }
    }
  }

  // ----- the order in which `traversal` visits the nodes -----

  /** The keys below `p`. */
  function ChildKeys(nodes: set<Path>, p: Path): set<string>
  {
    set q | q in nodes && q != [] && Front(q) == p :: Last(q)
  }

  /** The children of `p`, in the order of their keys. */
  function Kids(nodes: set<Path>, p: Path): seq<Path>
  {
    var keys := Ascending(ChildKeys(nodes, p));
    seq(|keys|, i requires 0 <= i < |keys| => p + [keys[i]])
  }

  lemma KidsShape(nodes: set<Path>, p: Path)
    ensures forall i | 0 <= i < |Kids(nodes, p)| :: Kids(nodes, p)[i] != [] && Front(Kids(nodes, p)[i]) == p
    ensures forall i, j | 0 <= i < j < |Kids(nodes, p)| :: Kids(nodes, p)[i] != Kids(nodes, p)[j]
  {
    var keys := Ascending(ChildKeys(nodes, p));
    var r := Kids(nodes, p);
    assert |r| == |keys|;
    forall i | 0 <= i < |r| ensures r[i] != [] && Last(r[i]) == keys[i] && Front(r[i]) == p {
      assert r[i] == p + [keys[i]];
    }
  }

  lemma KidsAreChildren(nodes: set<Path>, p: Path, q: Path)
    ensures q in Kids(nodes, p) <==> q in nodes && q != [] && Front(q) == p
  {
    hide Ascending;
    var keys := Ascending(ChildKeys(nodes, p));
    var r := Kids(nodes, p);
    if q in nodes && q != [] && Front(q) == p {
      assert Last(q) in keys;
      var i :| 0 <= i < |keys| && keys[i] == Last(q);
      assert r[i] == p + [Last(q)] == q;
    }
    if q in r {
      var i :| 0 <= i < |r| && r[i] == q;
      assert q == p + [keys[i]] && keys[i] in ChildKeys(nodes, p);
      var child :| child in nodes && child != [] && Front(child) == p && Last(child) == keys[i];
      assert child == q;
    }
  }

  function Reverse<T(!new)>(s: seq<T>): (r: seq<T>)
    ensures |r| == |s|
    ensures forall i | 0 <= i < |s| :: r[i] == s[|s| - 1 - i]
    ensures forall x :: x in r <==> x in s
  {
    if s == [] then [] else
      var r := Reverse(s[1..]) + [s[0]];
      assert s == [s[0]] + s[1..];
      r
  }

  lemma KidsReplace(nodes: set<Path>, rest: seq<Path>, b: Path)
    requires b in nodes && Disjoint(rest + [b])
    ensures Replaces(nodes, rest, b, Reverse(Kids(nodes, b)))
  {
    hide Kids;
    var kids := Reverse(Kids(nodes, b));
    KidsShape(nodes, b);
    forall i, j | 0 <= i < j < |kids| ensures !(kids[i] <= kids[j]) && !(kids[j] <= kids[i]) {
      var m, n := |kids| - 1 - i, |kids| - 1 - j;
      assert Front(Kids(nodes, b)[m]) == b && Front(Kids(nodes, b)[n]) == b;
      assert |kids[i]| == |kids[j]| && kids[i] != kids[j];
    }
    forall p | p in kids ensures p in nodes && b < p {
      KidsAreChildren(nodes, b, p);
      assert p == b + [Last(p)];
    }
  }

  ghost predicate Stack(nodes: set<Path>, items: seq<Path>)
  {
    Disjoint(items) && forall p | p in items :: p in nodes
  }

  lemma StackStep(nodes: set<Path>, stack: seq<Path>)
    requires Stack(nodes, stack) && stack != []
    ensures
      var next := Front(stack) + Reverse(Kids(nodes, Last(stack)));
      && Stack(nodes, next)
      && Replaces(nodes, Front(stack), Last(stack), Reverse(Kids(nodes, Last(stack))))
      && Covered(nodes, next) < Covered(nodes, stack)
  {
    assert stack == Front(stack) + [Last(stack)];
    KidsReplace(nodes, Front(stack), Last(stack));
    ReplaceKeepsDisjoint(nodes, Front(stack), Last(stack), Reverse(Kids(nodes, Last(stack))));
    ReplaceShrinks(nodes, Front(stack), Last(stack), Reverse(Kids(nodes, Last(stack))));
  }

  /** The nodes `traversal` hands to its callback, in order, from a stack of nodes. */
  ghost function Visits(nodes: set<Path>, stack: seq<Path>): seq<Path>
    requires Stack(nodes, stack)
    decreases Covered(nodes, stack)
  {
    if stack == [] then [] else
      StackStep(nodes, stack);
      var kids := Kids(nodes, Last(stack));
      kids + Visits(nodes, Front(stack) + Reverse(kids))
  }

  /** A node strictly below an item. */
  ghost predicate StrictlyBelow(items: seq<Path>, q: Path)
  {
    exists i | 0 <= i < |items| :: items[i] < q
  }

  /** A node below the taken one is a kid of it or lies below a kid. */
  lemma BelowTaken(nodes: set<Path>, rest: seq<Path>, b: Path, q: Path)
    requires Rooted(nodes) && q in nodes && b < q
    ensures q in Kids(nodes, b) || StrictlyBelow(rest + Reverse(Kids(nodes, b)), q)
  {
    var kids := Reverse(Kids(nodes, b));
    var kid := q[..|b| + 1];
    RootedPrefix(nodes, q, |b| + 1);
    assert Front(kid) == b;
    KidsAreChildren(nodes, b, kid);
    var j :| 0 <= j < |kids| && kids[j] == kid;
    assert (rest + kids)[|rest| + j] == kid;
    assert kid == q || kid < q;
  }

  /** What lies strictly below the stack is what lies strictly below the next one, plus the kids. */
  lemma BelowStep(nodes: set<Path>, rest: seq<Path>, b: Path, q: Path)
    requires Rooted(nodes) && Stack(nodes, rest + [b]) && q in nodes
    ensures
      var kids := Kids(nodes, b);
      StrictlyBelow(rest + [b], q) <==> q in kids || StrictlyBelow(rest + Reverse(kids), q)
  {
    hide Kids, Stack, Rooted;
    var kids := Kids(nodes, b);
    var was, next := rest + [b], rest + Reverse(kids);
    assert was[|rest|] == b;
    if StrictlyBelow(was, q) {
      var i :| 0 <= i < |was| && was[i] < q;
      if i < |rest| { assert next[i] == was[i]; } else { BelowTaken(nodes, rest, b, q); }
    }
    if q in kids {
      KidsAreChildren(nodes, b, q);
      assert was[|rest|] < q;
    } else if StrictlyBelow(next, q) {
      var i :| 0 <= i < |next| && next[i] < q;
      if i < |rest| {
        assert was[i] == next[i];
      } else {
        assert next[i] in kids;
        KidsAreChildren(nodes, b, next[i]);
        assert was[|rest|] < q;
      }
    }
  }

  /** A kid is not strictly below anything that stays on the stack. */
  lemma KidsAreVisitedOnce(nodes: set<Path>, rest: seq<Path>, b: Path, q: Path)
    requires Stack(nodes, rest + [b]) && q in Kids(nodes, b)
    ensures !StrictlyBelow(rest + Reverse(Kids(nodes, b)), q)
  {
    var kids := Kids(nodes, b);
    var was, next := rest + [b], rest + Reverse(kids);
    KidsAreChildren(nodes, b, q);
    forall i | 0 <= i < |next| ensures !(next[i] < q) {
      if i < |rest| {
        assert was[i] == next[i] && was[|rest|] == b;
        if next[i] < q { PrefixesCompare(next[i], b, q); }
      } else {
        assert next[i] in kids;
        KidsAreChildren(nodes, b, next[i]);
      }
    }
  }

  ghost predicate Distinct<T>(s: seq<T>)
  {
    forall i, j | 0 <= i < j < |s| :: s[i] != s[j]
  }

  lemma VisitsUnfold(nodes: set<Path>, stack: seq<Path>)
    requires Stack(nodes, stack) && stack != []
    ensures
      var kids := Kids(nodes, Last(stack));
      var next := Front(stack) + Reverse(kids);
      && stack == Front(stack) + [Last(stack)]
      && Stack(nodes, next)
      && Covered(nodes, next) < Covered(nodes, stack)
      && Visits(nodes, stack) == kids + Visits(nodes, next)
  {
    StackStep(nodes, stack);
  }

  /** The traversal hands over exactly the nodes strictly below its stack. */
  lemma {:induction false} VisitsAllBelow(nodes: set<Path>, stack: seq<Path>, q: Path)
    requires Rooted(nodes) && Stack(nodes, stack)
    ensures q in Visits(nodes, stack) <==> q in nodes && StrictlyBelow(stack, q)
    decreases Covered(nodes, stack)
  {
    if stack != [] {
      VisitsUnfold(nodes, stack);
      VisitsAllBelow(nodes, Front(stack) + Reverse(Kids(nodes, Last(stack))), q);
      KidsAreChildren(nodes, Last(stack), q);
      if q in nodes { BelowStep(nodes, Front(stack), Last(stack), q); }
    }
  }

  /** It hands over no node twice. */
  lemma {:induction false} VisitsAreDistinct(nodes: set<Path>, stack: seq<Path>)
    requires Rooted(nodes) && Stack(nodes, stack)
    ensures Distinct(Visits(nodes, stack))
    decreases Covered(nodes, stack)
  {
    if stack != [] {
      VisitsUnfold(nodes, stack);
      var kids := Kids(nodes, Last(stack));
      var next := Front(stack) + Reverse(kids);
      VisitsAreDistinct(nodes, next);
      KidsShape(nodes, Last(stack));
      forall i, j | 0 <= i < |kids| && 0 <= j < |Visits(nodes, next)| ensures kids[i] != Visits(nodes, next)[j] {
        assert kids[i] in kids && Visits(nodes, next)[j] in Visits(nodes, next);
        KidsAreVisitedOnce(nodes, Front(stack), Last(stack), kids[i]);
        VisitsAllBelow(nodes, next, kids[i]);
      }
    }
  }

  // ----- the order of the visits -----

  /** By their parents first, and children of one parent by their keys. */
  predicate VisitBefore(u: Path, v: Path)
  {
    u != [] && v != [] && if Front(u) == Front(v) then StrLeq(Last(u), Last(v)) else PathLeq(Front(u), Front(v))
  }

  /** What is to be taken first is on top. */
  ghost predicate TopFirst(stack: seq<Path>)
  {
    forall i, j | 0 <= i < j < |stack| :: PathLeq(stack[j], stack[i])
  }

  /** What comes after a path, but not below it, comes after everything below it. */
  lemma {:induction false} AfterSubtree(b: Path, k: Path, x: Path)
    requires PathLeq(b, x) && b <= k && !(b <= x)
    ensures PathLeq(k, x)
  {
    assert b != [] && x != [];
    if b[0] == x[0] {
      assert b == [b[0]] + b[1..] && x == [x[0]] + x[1..] && b[1..] <= k[1..];
      AfterSubtree(b[1..], k[1..], x[1..]);
    }
  }

  lemma {:induction false} SiblingsLeq(b: Path, k: string, l: string)
    requires StrLeq(k, l)
    ensures PathLeq(b + [k], b + [l])
  {
    if b != [] {
      assert (b + [k])[1..] == b[1..] + [k] && (b + [l])[1..] == b[1..] + [l];
      SiblingsLeq(b[1..], k, l);
    }
  }

  lemma KidsInOrder(nodes: set<Path>, b: Path, i: nat, j: nat)
    requires i < j < |Kids(nodes, b)|
    ensures PathLeq(Kids(nodes, b)[i], Kids(nodes, b)[j]) && VisitBefore(Kids(nodes, b)[i], Kids(nodes, b)[j])
  {
    hide StrLeq, PathLeq;
    var keys := Ascending(ChildKeys(nodes, b));
    assert Front(b + [keys[i]]) == b && Front(b + [keys[j]]) == b;
    SiblingsLeq(b, keys[i], keys[j]);
  }

  lemma NextTopFirst(nodes: set<Path>, rest: seq<Path>, b: Path)
    requires Stack(nodes, rest + [b]) && TopFirst(rest + [b])
    ensures TopFirst(rest + Reverse(Kids(nodes, b)))
  {
    hide PathLeq, Kids;
    var kids, was := Reverse(Kids(nodes, b)), rest + [b];
    var next := rest + kids;
    assert was[|rest|] == b;
    forall i, j | 0 <= i < j < |next| ensures PathLeq(next[j], next[i]) {
      if j < |rest| {
        assert next[i] == was[i] && next[j] == was[j];
      } else if i < |rest| {
        assert next[i] == was[i] && next[j] in kids;
        KidsAreChildren(nodes, b, next[j]);
        assert b <= next[j];
        AfterSubtree(b, next[j], next[i]);
      } else {
        KidsInOrder(nodes, b, |next| - 1 - j, |next| - 1 - i);
      }
    }
  }

  /** A kid is visited before all that is visited later. */
  lemma KidsFirst(nodes: set<Path>, rest: seq<Path>, b: Path, kid: Path, v: Path)
    requires Rooted(nodes) && Stack(nodes, rest + [b]) && TopFirst(rest + [b])
    requires kid in Kids(nodes, b) && v in nodes && v !in Kids(nodes, b)
    requires StrictlyBelow(rest + Reverse(Kids(nodes, b)), v)
    ensures VisitBefore(kid, v)
  {
    hide PathLeq, Kids, Rooted;
    var was, kids := rest + [b], Reverse(Kids(nodes, b));
    var next := rest + kids;
    KidsAreChildren(nodes, b, kid);
    KidsAreChildren(nodes, b, v);
    var i :| 0 <= i < |next| && next[i] < v;
    assert next[i] <= Front(v);
    PrefixSortsFirst(next[i], Front(v));
    assert PathLeq(b, next[i]) by {
      if i < |rest| {
        assert was[i] == next[i] && was[|rest|] == b;
      } else {
        assert next[i] in kids;
        KidsAreChildren(nodes, b, next[i]);
        PrefixSortsFirst(b, next[i]);
      }
    }
    PathLeqTransitive(b, next[i], Front(v));
  }

  ghost predicate InVisitOrder(r: seq<Path>)
  {
    forall i, j | 0 <= i < j < |r| :: VisitBefore(r[i], r[j])
  }

  /** The traversal visits by parents, and the children of one parent in the order of their keys. */
  lemma {:induction false} VisitsInOrder(nodes: set<Path>, stack: seq<Path>)
    requires Rooted(nodes) && Stack(nodes, stack) && TopFirst(stack)
    ensures InVisitOrder(Visits(nodes, stack))
    decreases Covered(nodes, stack)
  {
    hide PathLeq, Kids, Rooted, VisitBefore;
    if stack != [] {
      VisitsUnfold(nodes, stack);
      var rest, b := Front(stack), Last(stack);
      var kids := Kids(nodes, b);
      var next := rest + Reverse(kids);
      NextTopFirst(nodes, rest, b);
      VisitsInOrder(nodes, next);
      VisitsAreDistinct(nodes, stack);
      var all, later := Visits(nodes, stack), Visits(nodes, next);
      forall i, j | 0 <= i < j < |all| ensures VisitBefore(all[i], all[j]) {
        if j < |kids| {
          KidsInOrder(nodes, b, i, j);
        } else if i < |kids| {
          var v := later[j - |kids|];
          assert all[j] == v && v in later && all[i] in kids;
          VisitsAllBelow(nodes, next, v);
          assert forall k | 0 <= k < |kids| :: all[k] == kids[k];
          KidsFirst(nodes, rest, b, all[i], v);
        } else {
          assert all[i] == later[i - |kids|] && all[j] == later[j - |kids|];
        }
      }
    }
  }
}
