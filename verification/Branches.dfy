/** Branches of the route tree as values: their keys, their variable types, and the tree
    that a list of APIs stands for. */
module Branches {
  import opened Text
  import opened Apis

  const VARIABLE_OPENER: char := '{'
  const VARIABLE_CLOSING: char := '}'
  const VAR_TYPE_OPTIONAL: char := '?'
  const VAR_TYPE_EMPTABLE_VECTOR: char := '*'
  const VAR_TYPE_VECTOR: char := '+'

  /** The keys from the root to a node. */
  type Path = seq<string>

  datatype VarType =
    | Required(name: string)
    | Optional(name: string)
    | EmptableVector(name: string)
    | Vector(name: string)
    | NotVar

  /** The element of a tree node, without its links to other nodes. */
  datatype Branch = Branch(path: string, varType: VarType, isMidVar: bool, isOmission: bool, apis: seq<Api>)

  function Last<T>(s: seq<T>): T
    requires s != []
  {
    s[|s| - 1]
  }

  function Front<T>(s: seq<T>): seq<T>
    requires s != []
  {
    s[..|s| - 1]
  }

  // ----- elements -----

  /** `KeyFactory::key`. */
  function Key(path: string): string
  {
    Trim(LastPart(path))
  }

  /** `KeyFactory::child_of`, on the paths of the two elements. */
  predicate ChildOf(path: string, parent: string)
  {
    match RFind(path, PATH_PART_SEPARATOR)
    case None => parent == []
    case Some(i) => path[..i] == parent
  }

  /** A key that a variable opens and closes. */
  predicate IsVarKey(key: string)
  {
    |key| >= 2 && key[0] == VARIABLE_OPENER && Last(key) == VARIABLE_CLOSING
  }

  /** `fill_var_type`. */
  function VarTypeOf(key: string): VarType
  {
    if !IsVarKey(key) then NotVar else
      var name := Trim(key[1..|key| - 1]);
      if name == [] then Required(name)
      else if Last(name) == VAR_TYPE_OPTIONAL then Optional(TrimEnd(Front(name)))
      else if Last(name) == VAR_TYPE_EMPTABLE_VECTOR then EmptableVector(TrimEnd(Front(name)))
      else if Last(name) == VAR_TYPE_VECTOR then Vector(TrimEnd(Front(name)))
      else Required(name)
  }

  predicate AnyOmission(apis: seq<Api>)
  {
    exists api | api in apis :: api.omission
  }

  /** `ApiBranch::new`. It panics on an omissible variable; callers rule that out. */
  function NewBranch(path: string, apis: seq<Api>): Branch
  {
    Branch(path, VarTypeOf(Key(path)), false, AnyOmission(apis), apis)
  }

  // ----- the tree a list of APIs stands for -----

  function Keys(path: string): (r: Path)
    ensures |r| >= 1
  {
    Split(path, PATH_PART_SEPARATOR)
  }

  function PathOf(keys: Path): string
  {
    Join(keys, PATH_PART_SEPARATOR)
  }

  /** The APIs registered under exactly this path, in push order. */
  function GroupOf(apis: seq<Api>, path: string): (group: seq<Api>)
    ensures forall api :: api in group <==> api in apis && api.path == path
  {
    if apis == [] then []
    else if apis[0].path == path then [apis[0]] + GroupOf(apis[1..], path)
    else GroupOf(apis[1..], path)
  }

  /** In push order, each once: one API more comes last. */
  lemma {:induction false} GroupOfSnoc(apis: seq<Api>, api: Api, path: string)
    ensures GroupOf(apis + [api], path) == GroupOf(apis, path) + (if api.path == path then [api] else [])
  {
    if apis == [] {
      assert apis + [api] == [api] && [api][1..] == [];
    } else {
      assert (apis + [api])[1..] == apis[1..] + [api];
      GroupOfSnoc(apis[1..], api, path);
    }
  }

  /** Every prefix of a registered path, the root included. */
  function Prefixes(apis: seq<Api>): set<Path>
  {
    {[]} + set api, n | api in apis && 0 <= n <= |Keys(api.path)| :: Keys(api.path)[..n]
  }

  /** The node at a prefix: its registered APIs, none for a node that only leads to others. */
  function BranchAt(apis: seq<Api>, keys: Path): Branch
  {
    NewBranch(PathOf(keys), if keys == [] then [] else GroupOf(apis, PathOf(keys)))
  }

  /** The route tree: independent of the order in which the groups are inserted. */
  function Contents(apis: seq<Api>): map<Path, Branch>
  {
    map keys | keys in Prefixes(apis) :: BranchAt(apis, keys)
  }

  /** What registration demands of a path: no leading separator (construction removes it)
      and no white space around a part (keys are trimmed, look-ups are not). */
  ghost predicate TreePath(path: string)
  {
    && (path == [] || path[0] != PATH_PART_SEPARATOR)
    && forall i | 0 <= i < |Keys(path)| :: Trim(Keys(path)[i]) == Keys(path)[i]
  }

  /** Registered paths are tree paths, and no variable is omissible. */
  ghost predicate Registrable(apis: seq<Api>)
  {
    && (forall api | api in apis :: TreePath(api.path))
    && forall api | api in apis && api.omission :: !IsVarKey(Key(api.path))
  }

  // ----- paths and keys -----

  ghost predicate SeparatorFree(keys: Path)
  {
    AllFree(keys, PATH_PART_SEPARATOR)
  }

  lemma KeysOfPathOf(keys: Path)
    requires keys != [] && SeparatorFree(keys)
    ensures Keys(PathOf(keys)) == keys
  {
    SplitOfJoin(keys, PATH_PART_SEPARATOR);
  }

  lemma PathOfKeys(path: string)
    ensures PathOf(Keys(path)) == path && SeparatorFree(Keys(path))
  {
    JoinOfSplit(path, PATH_PART_SEPARATOR);
    SplitIsFree(path, PATH_PART_SEPARATOR);
  }

  /** Distinct non-empty key paths have distinct texts. */
  lemma PathOfInjective(a: Path, b: Path)
    requires a != [] && b != [] && SeparatorFree(a) && SeparatorFree(b)
    requires PathOf(a) == PathOf(b)
    ensures a == b
  {
    KeysOfPathOf(a);
    KeysOfPathOf(b);
  }

  /** Where the last separator of a joined path is. */
  lemma RFindOfPath(keys: Path)
    requires keys != [] && SeparatorFree(keys)
    ensures |keys| == 1 ==> PATH_PART_SEPARATOR !in PathOf(keys)
    ensures |keys| > 1 ==>
              && RFind(PathOf(keys), PATH_PART_SEPARATOR) == Some(|PathOf(Front(keys))|)
              && PathOf(keys) == PathOf(Front(keys)) + [PATH_PART_SEPARATOR] + Last(keys)
  {
    if |keys| > 1 {
      var text := PathOf(keys);
      var cut := |PathOf(Front(keys))|;
      assert keys == Front(keys) + [Last(keys)];
      JoinSnoc(Front(keys), Last(keys), PATH_PART_SEPARATOR);
      assert text[cut] == PATH_PART_SEPARATOR;
      assert forall j | cut < j < |text| :: text[j] == Last(keys)[j - cut - 1];
    }
  }

  /** The key of an element is the last key of its path. */
  lemma LastPartOfPath(keys: Path)
    requires keys != [] && SeparatorFree(keys)
    ensures LastPart(PathOf(keys)) == Last(keys)
  {
    RFindOfPath(keys);
  }

  /** An element is a child of another exactly when its keys extend the other's by one. */
  lemma ChildOfPath(keys: Path, parent: string)
    requires keys != [] && SeparatorFree(keys)
    ensures ChildOf(PathOf(keys), parent) <==> PathOf(Front(keys)) == parent
  {
    RFindOfPath(keys);
    if |keys| > 1 {
      assert PathOf(keys)[..|PathOf(Front(keys))|] == PathOf(Front(keys));
    }
  }

  // ----- the route tree -----

  lemma PrefixesShape(apis: seq<Api>, keys: Path)
    requires keys in Prefixes(apis)
    ensures SeparatorFree(keys)
    ensures keys != [] ==> Front(keys) in Prefixes(apis)
    ensures forall api | api in apis :: Keys(api.path) in Prefixes(apis)
  {
    forall api | api in apis ensures Keys(api.path) in Prefixes(apis) {
      assert Keys(api.path)[..|Keys(api.path)|] == Keys(api.path);
    }
    if keys != [] {
      var api, n :| api in apis && 0 <= n <= |Keys(api.path)| && keys == Keys(api.path)[..n];
      SplitIsFree(api.path, PATH_PART_SEPARATOR);
      assert Front(keys) == Keys(api.path)[..n - 1];
    }
  }

  /** A node without children is registered: only the root can be a bare leaf. */
  lemma LeavesAreRegistered(apis: seq<Api>, keys: Path)
    requires keys in Prefixes(apis) && keys != []
    requires forall longer | longer in Prefixes(apis) && keys <= longer :: longer == keys
    ensures BranchAt(apis, keys).apis != []
  {
    var api, n :| api in apis && 0 <= n <= |Keys(api.path)| && keys == Keys(api.path)[..n];
    PrefixesShape(apis, keys);
    assert keys <= Keys(api.path);
    PathOfKeys(api.path);
    assert api in GroupOf(apis, PathOf(keys));
  }

  /** The first key of a tree path is empty only when it is the only key. */
  lemma FirstKeyOfTreePath(path: string)
    requires path == [] || path[0] != PATH_PART_SEPARATOR
    ensures |Keys(path)| > 1 ==> Keys(path)[0] != []
  {
  }

  /** The key, the type and the omission of a node, read off its path. */
  lemma BranchShape(apis: seq<Api>, keys: Path)
    requires Registrable(apis) && keys in Prefixes(apis) && keys != []
    ensures Key(PathOf(keys)) == Last(keys)
    ensures BranchAt(apis, keys).varType == VarTypeOf(Last(keys))
    ensures BranchAt(apis, keys).isOmission ==> BranchAt(apis, keys).varType.NotVar?
    ensures |keys| > 1 ==> keys[0] != []
  {
    var api, n :| api in apis && 0 <= n <= |Keys(api.path)| && keys == Keys(api.path)[..n];
    FirstKeyOfTreePath(api.path);
    PrefixesShape(apis, keys);
    LastPartOfPath(keys);
    assert Last(keys) == Keys(api.path)[n - 1];
    if BranchAt(apis, keys).isOmission {
      var omitted :| omitted in GroupOf(apis, PathOf(keys)) && omitted.omission;
      assert omitted.path == PathOf(keys);
    }
  }
}
