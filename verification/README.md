# Routing, sessions and messages of `dce-rust`, verified

A Dafny model of the three parts of the repository that carry its meaning, with proofs of what
they are for. `dafny verify dfyconfig.toml` checks everything.

**The router.** APIs are declared with path templates and suffix sets. Closing the router builds a
tree of path keys and a hash index from "omitted path and suffix" to APIs. A request is looked up
in the index first and searched in the tree second; redirects are followed.

- `Text`, `Apis`, `Branches`: strings, declared suffixes and their order, branches as values, and
  the tree a list of APIs stands for. `Variables`: how variables are written, and what they take.
- `ATree`, `Building`, `WiringPass`: the mutable tree, its construction from an unordered bag of
  paths, and the pass that links variables and omission-passed nodes. `Wiring` and `Frontier` say
  what the pass must leave behind, and why worklists end.
- `Search` is the search as a function of tree and request, `Matcher` the search on the mutable
  tree. `Matching` is the meaning of templates, without any search: which parts spell which branch.
  `Soundness`, `Completeness`, `Choice`, `Walking`, `Panics`, `OneWay`, `Reversal`, `Rebinding`, `Decided`
  and `NameClash` relate the two; `Choice` says which branch is found, `OneWay` is about trees in which
  the search has no choice.
- `Index`, `Routing`, `Router`, `Request`: the hash index, `locate`, the router object, and the
  routed part of a request's context. `RedirectCycle` is a router whose redirects do not end.

**Sessions.** A session object has an id that encodes its time to live and creation time, a user
looked for at most once, and sometimes a copy of the session it came from. Many objects, some
stale, work on one Redis store.

- `Sid`: ids and meta data. `Store`: the commands of Redis that are used, as functions of the store.
- `Session`: every operation as a function of store and session. `SessionObjects`: the objects,
  each method proved to do what the function says. `SessionLaws`: what the operations achieve.
- `StoreInvariants`, `Lifecycle`: what every run of any sessions keeps. `SessionRuns`: two runs that
  show what its conditions are for.

**Messages.** `Utf8`, `Messages`, `Receiving`, `Protocols`: the head-and-body format of the TCP and
WebSocket protocols, its printers and its parser.

## What is assumed

- Separators are the default ones: the omitted path and the suffix path use the constants, whatever
  `set_separator` says.
- Registered paths have no white space around their parts (keys are trimmed, look-ups are not) and
  do not start with a separator, which construction removes (`Apis.NewApi`, `Registrable`). No variable is
  omissible; constructing such a branch panics (crates/router/src/router.rs:406-408).
- For the index: no registered path holds a suffix boundary, and omitted paths equal ignoring case
  are equal (`Indexable`). The last part of a constructed path never holds one
  (`Apis.LastPartHasNoBoundary`).
- `locate` is modelled for requests whose redirects end (`RedirectsEnd`), since it loops on others.
- New session ids are new: nothing stored has the id or refers to it. The clock is at least 16^7
  seconds past the epoch (July 1978) for the run-wide session properties; `Sids.SidRoundTrip` says
  what happens before. The clock of the program and that of Redis agree.
- Applications do not write the fields `$user` and `$newid` themselves, and do not change a
  session's time to live but through login.

## What came out

- The documentation (README.md:36) says that matching time grows exponentially with the number of
  variables. The search in fact never takes a branch twice, because pending branches lie in disjoint
  subtrees, so it ends within as many rounds as the tree has nodes.
- The search can index past the end of the request and panic (crates/router/src/router.rs:291).
  `Panics.PanicsExactly` says for which trees, `Completeness.SearchIsComplete` for which requests.
- Bindings are never taken back. They do no harm where no two variables of one name meet: one below
  the other, or below another variable tried together with it (`Soundness.SearchBindsCorrectly`). Where
  they do, the later binding stays (`Rebinding.LaterBindingWins`), and requests are bound wrongly
  (`Rebinding.BindingExactly`, `NameClash.NameClashMisbinds`). So they are when every part is the key of
  its node, variables included (`Walking.LiteralKeysBindNothing`); where the search has no choice, just
  when some part is taken for the key of a variable on the way (`Decided.BoundRightExactly`).
- A suffix is never cut off at a middle variable. So `{x}.txt` is out of reach beside `{x}/y`: `a.txt` is
  matched with no suffix, and not found (`Routing.SuffixedMiddleIsLost`, `Routing.MatchMissesExactly`).
- `locate` ends exactly when no path comes twice (`Routing.RedirectsEndExactly`); two APIs that redirect
  to one another make it loop (`RedirectCycle.CycleNeverEnds`).
- A `?` variable may be left empty exactly when its parent has no APIs of its own, and never below
  the root, where the empty request has one empty part.
- A login with a time to live of zero loses the session's fields, and so may automatic renewal of a
  stored session without a time to live (`SessionRuns.ZeroSessionIsLost`). With one, automatic renewal
  loses nothing, because successors never form a cycle.
- After a login with another time to live, the time since the successor's last touch is measured
  with the wrong time to live, and the unsigned subtraction wraps around
  (`SessionRuns.SuccessorMeasuredWrong`).
- A message whose first line starts with white space is not read back: its body starts too early, by the
  bytes of the white space (`Messages.IndexIsEarly`). With more than eight bytes of it the body may start
  inside a character, and taking it panics (`Messages.TornOnReceipt`, `Messages.BodyIsTorn`). A message
  that starts with the separator makes the parser panic.

## Model

| member | source | states |
|---|---|---|
| Apis.SuffixOrderTotal | crates/router/src/api.rs:223-235 | any two suffixes are ordered one way only, or equal |
| Apis.SuffixOrderTransitive | crates/router/src/api.rs:223-235 | the order of suffixes is transitive |
| Apis.SuffixSetUnique | crates/router/src/api.rs:68-72 | a set of suffixes is walked in one order, whatever order it was filled in |
| Apis.LongestSuffixWins | crates/router/src/router.rs:262-265 | the first declared suffix that ends a part is the longest one that does |
| Apis.LongerTailHasMoreBoundaries | crates/router/src/api.rs:225-232 | of two suffixes that end one part the longer has more boundaries, which is why the order by boundaries finds the longest |
| Apis.CutTailRestores | crates/router/src/router.rs:264-265 | a variable with its suffix cut off, and the suffix appended again, is the part |
| Apis.PathAndSuffixesSpell | crates/router/src/api.rs:67-75 | the path and the suffixes of a declaration spell it out again |
| Apis.LastPartHasNoBoundary | crates/router/src/api.rs:69-74 | the suffixes start at the first boundary of the last part |
| Apis.ConstructedSuffixes | crates/router/src/api.rs:69-74 | no suffix of a constructed API holds a path or a suffix separator |
| Apis.TrimmedSeparators | crates/router/src/api.rs:67-67 | trimming a declaration takes off the separators at its ends and nothing else |
| Apis.NewApi | crates/router/src/api.rs:67-76 | a constructed API spells its trimmed declaration, starts with no separator, has no boundary in its last part, at least one suffix, and neither separator in a suffix; id, omission, redirect and name are the given ones |
| ATrees.ATree.Set | crates/util/src/atom_tree.rs:32-37 | a fresh, childless node stands under the key; what was below that key is gone, and nothing else of the tree changes |
| ATrees.ATree.GetByPath | crates/util/src/atom_tree.rs:64-68 | the node with exactly these keys, or none if there is no such node |
| ATrees.ATree.SetByPath | crates/util/src/atom_tree.rs:54-58 | it fails exactly on an empty path or a missing parent; otherwise the node is set |
| ATrees.ATree.Adopt | crates/util/src/atom_tree.rs:159-162 | one parent takes exactly the elements one key below it, and nothing that waits for another parent is lost |
| ATrees.ATree.Build | crates/util/src/atom_tree.rs:150-168 | every element is in the tree at its own keys or handed to the remains handler, never both, and what remains has no parent in the tree |
| Building.GroupBranches | crates/router/src/router.rs:137-141 | one branch per registered path, with its APIs in push order, for every order of the groups |
| Building.CollectFills | crates/router/src/router.rs:146-159 | the fills are exactly the missing prefixes of registered paths, registered ones with their APIs, the others bare |
| Building.LeastHasParent | crates/router/src/router.rs:160-162 | the first of the fills always has its parent in the tree, because a prefix sorts before its extensions |
| Building.InsertLeast | crates/router/src/router.rs:160-162 | inserting a fill neither fails nor drops a subtree |
| Building.BuildContents | crates/router/src/router.rs:136-165 | whatever order the groups come in, the nodes are exactly the prefixes of the registered paths, each with exactly its APIs in push order |
| Frontier.PrefixSortsFirst | crates/router/src/router.rs:146-162 | in the order of the fills a path comes after all its prefixes |
| Frontier.LeastPathExists | crates/router/src/router.rs:160-160 | any set of paths to fill in has a least one to pop first |
| Branches.ChildOfPath | crates/router/src/router.rs:426-428 | an element is a child of another exactly when its keys extend the other's by one |
| Branches.LeavesAreRegistered | crates/router/src/router.rs:146-159 | a node below the root without children is a registered path |
| Branches.GroupOfSnoc | crates/router/src/router.rs:137-138 | the APIs of a path are in push order, each once |
| Variables.MarkedKeys | crates/router/src/router.rs:403-418 | a name in braces with `?`, `*` or `+` behind it is an optional, an emptable vector or a vector variable of just that name, and without a mark a required one, white space inside the braces aside |
| Variables.EveryVariable | crates/router/src/router.rs:403-418 | every key in braces is written in one of these forms |
| Variables.OnlyInBraces | crates/router/src/router.rs:405-405 | what is not opened and closed by braces is no variable, and nothing else is |
| Frontier.VisitsAllBelow | crates/util/src/atom_tree.rs:113-130 | the traversal hands over exactly the nodes below its start |
| Frontier.VisitsAreDistinct | crates/util/src/atom_tree.rs:113-130 | the traversal hands over no node twice |
| Frontier.VisitsInOrder | crates/util/src/atom_tree.rs:113-130 | the traversal visits by parents, and the children of one parent in the order of their keys |
| Wiring.AnchorUnique | crates/router/src/router.rs:170-189 | the nearest ancestor that is not omitted is the only ancestor of its kind |
| Wiring.VisitWires | crates/router/src/router.rs:170-189 | visiting a node changes its nearest ancestor that is not omitted, as the code says, and no other node |
| Wiring.AmbiguousMeans | crates/router/src/router.rs:173-177 | some visited node hits the panic exactly when a `?`, `*` or `+` variable has a child |
| Wiring.LastPassedWins | crates/router/src/router.rs:181-183 | of the omission-passed nodes with one key the one visited last is kept |
| WiringPass.Attach | crates/router/src/router.rs:166-191 | the callback of the traversal on the tree: it finds that ancestor and changes it alone, or reports the panic |
| WiringPass.VisitChildren | crates/util/src/atom_tree.rs:118-128 | the children of a node are handed over in key order, and stacked so that the first comes off first |
| WiringPass.WireTree | crates/router/src/router.rs:166-191 | the pass goes through exactly when no `?`, `*` or `+` variable has something below it, and leaves the links the wiring function describes |
| Wiring.TrieIsSearchable | crates/router/src/router.rs:136-191 | after registration and wiring: `is_mid_var` holds exactly for required variables with something below, every link leads to a node whose nearest unomitted ancestor this is, and no variable or omission-passed node is left out |
| Wiring.VarsInKeyOrder | crates/router/src/router.rs:177-180 | the variables a branch offers are in the order of their parents, and those of one parent in the order of their keys |
| Text.StrLeqMeans | crates/util/src/atom_tree.rs:120-120 | the order of keys: a prefix comes first, and otherwise the first difference decides |
| Wiring.OmissionsMean | crates/router/src/router.rs:396-396 | a node may be dropped exactly when an omissible API is registered at its path |
| Matchers.FindNode | crates/router/src/router.rs:300-324 | `find_consider_suffix` on the tree finds what the search function finds |
| Matchers.TryVariables | crates/router/src/router.rs:251-295 | the loop over the variable children does what the search function does, down to the place where items are inserted |
| Matchers.MatchPath | crates/router/src/router.rs:226-298 | `match_var_path` on the tree hands back what the search function finds, within as many rounds as the tree has nodes |
| Search.FindFinds | crates/router/src/router.rs:300-324 | what is found lies below the branch, and its key is the part up to a suffix that one of its APIs declares |
| Search.LongestHeadDecides | crates/router/src/router.rs:307-323 | exactly what is found: a part that is a key, a child before a node passed through omissions; of another, only the last may be cut, at the longest of its heads that is a key, if the rest is a suffix declared there |
| Search.StepShrinks | crates/router/src/router.rs:235-296 | after every round the items are in disjoint subtrees, and the branch just taken is in none of them |
| Search.SearchIsLinear | crates/router/src/router.rs:231-296 | the search takes no branch twice, and at most as many as the tree has nodes |
| Soundness.SearchIsSound | crates/router/src/router.rs:226-324 | what is returned carries APIs and lines up with the request: fixed parts equal, only omitted keys dropped, variables take an allowed number of parts, and the last part ends with the returned suffix |
| Soundness.SearchBindsCorrectly | crates/router/src/router.rs:234-293 | where no two variables of one name meet in a search, and no part is a variable's key, every variable of the returned branch is bound to its own parts with the longest suffix cut off, whatever was tried before |
| Soundness.StepPends | crates/router/src/router.rs:235-296 | every item waiting on the list is a variable put there together with one that is on the way to the items above it |
| Soundness.WaitingSurvives | crates/router/src/router.rs:290-292 | a binding made further down leaves every waiting item bound as it was, if names do not meet |
| Completeness.SearchIsComplete | crates/router/src/router.rs:235-296 | the search finds something exactly when some walk from the root, taking the fixed child wherever one is found and any variable child otherwise, ends on a branch with APIs or an end variable that matches, and the search has not run out of parts before; it panics exactly when the first walk to use up the parts on a branch without APIs, no walk before it succeeding, meets a middle variable |
| Choice.SearchChooses | crates/router/src/router.rs:235-297 | which branch is found, for every tree and request: exactly the one on which the walk from the root ends that goes over the fixed child where one is found, else ends on the first variable, in order, to take all the rest, else goes over the first middle variable from which a walk succeeds; unless the search runs out of parts before |
| Choice.EarlierKeyEnds | crates/router/src/router.rs:252-288 | of the variables that may end the route the one whose parent and key come first is taken: `{a}`, not `{b?}` |
| Choice.EarlierKeyGoesOn | crates/router/src/router.rs:289-293 | of the middle variables from which a walk succeeds, too |
| Rebinding.ReusedNameRepeats | crates/router/src/router.rs:290-292 | a route on which a name is used twice is bound right only when both variables took the same text |
| Rebinding.BindingStays | crates/router/src/router.rs:234-293 | once no variable of a name is below an item of the list any more, its binding is the final one |
| Rebinding.LaterBindingWins | crates/router/src/router.rs:290-292 | so a route through a variable whose name was bound again is bound right only when it took just that text |
| OneWay.SpelledIsFound | crates/router/src/router.rs:226-298 | where each branch offers fixed parts or one variable, parts that spell a registered route, none taken for the key of its variable, are routed to it, whatever suffix is cut off |
| Variables.VariableTakes | crates/router/src/router.rs:272-286 | where each branch offers fixed parts or one variable, behind the parts that spell its parent a registered variable is found exactly when it may take as many parts as are left |
| Variables.RouteTakes | crates/router/src/router.rs:272-286 | so a registered route that ends on a variable takes exactly one part for it without a mark, at most one for `?`, any number for `*`, and at least one for `+`; `files/{p*}` takes none for `files` |
| Decided.DecidedExactly | crates/router/src/router.rs:226-298 | where each branch offers fixed parts or one variable, and keys and suffixes can be told apart, a request without a variable's key is found exactly when it matches some registered branch, and makes the search panic exactly when it spells a branch without APIs whose variable is a middle one |
| Decided.PanicIsSpelled | crates/router/src/router.rs:291-291 | in any tree, a request that makes the search panic spells a branch without APIs that has a middle variable before any that may be empty |
| Decided.BoundRightExactly | crates/router/src/router.rs:244-293 | where each branch offers fixed parts or one variable and names are apart, the branch found is matched with its bindings exactly when no part was taken for the key of a variable on the way |
| Rebinding.BindingExactly | crates/router/src/router.rs:234-293 | where every branch offers fixed parts or one variable, every request path without a variable's key is bound right exactly when no name is used twice on a route, suffixes or not |
| Rebinding.ConstructedEndsPlain | crates/router/src/api.rs:69-74 | no last key of a constructed route holds a suffix boundary |
| Soundness.FirstTailIsLongestCut | crates/router/src/router.rs:259-265 | the suffix cut off an end variable is the longest that its APIs declare |
| Matching.SpelledSurvives | crates/router/src/router.rs:290-292 | binding a name leaves a route whose variables have other names bound as it was |
| NameClash.ClashIsReal | crates/router/src/router.rs:136-191 | the tree that the router builds from the routes `{x}/{y}/c` and `{y}/{z}/d`, node by node, with the order of its variables |
| NameClash.NameClashMisbinds | crates/router/src/router.rs:290-292 | in that tree names meet, and the request `p/q/d` is routed to the second route with `y` bound to `q` |
| Walking.LiteralKeysBindNothing | crates/router/src/router.rs:244-249 | a request that spells out a variable's own key is routed with the variable unbound, in any tree: the condition on parts is needed |
| Panics.PanicsExactly | crates/router/src/router.rs:291-291 | some request makes the search index past its end exactly when a branch below the root without APIs has, among its variables, a middle one before any that may be empty |
| Panics.NeverPanics | crates/router/src/router.rs:289-293 | if every branch below the root that has a middle variable carries APIs, no request makes the search panic |
| Panics.SpelledPanics | crates/router/src/router.rs:291-291 | the request that spells out such a branch, key by key, makes the search panic |
| Panics.LocatePanicsExactly | crates/router/src/router.rs:208-215 | without omissions the look-up of some request panics, the index being asked first, exactly when the tree has such a branch |
| Index.SuffixPathInjective | crates/router/src/router.rs:132-134 | a key without a boundary in its path gives back the path and the suffix |
| Index.ConstructedKey | crates/router/src/router.rs:132-134 | the key of a constructed API and a suffix gives back the path and the suffix, even with boundaries inside the path |
| Index.KeyIsIndexed | crates/router/src/router.rs:121-134 | the index holds the key of a group and a suffix exactly when some API of the group declares it, and then just these APIs, in push order |
| Index.KeptInOrder | crates/router/src/router.rs:96-104 | a part whose prefix is not omitted is kept, in its place |
| Index.KeptCount | crates/router/src/router.rs:96-104 | no other part is kept |
| Index.OmittedPathKeeps | crates/router/src/router.rs:96-104 | the parts of an omitted path are just those whose prefix is not omitted, in their order; with none left it is the empty text |
| Index.IndexedWithoutOmitted | crates/router/src/router.rs:96-128 | an API is in the index under the parts of its path at which no omissible API is registered, followed by each of its suffixes |
| Index.OmittedIsEmpty | crates/router/src/router.rs:96-128 | an omissible API at a path of one part, like `home`, is in the index under the empty key |
| Index.BelowOmitted | crates/router/src/router.rs:96-128 | what is registered below it, like `home/index`, is in the index under its own key, `index` |
| Index.ServingSnoc | crates/router/src/router.rs:124-126 | the APIs of a key are in push order, each once |
| Index.OmittedPathOfNone | crates/router/src/router.rs:96-104 | with nothing omitted the omitted path is the path |
| Index.OmittedPathDotFree | crates/router/src/router.rs:96-104 | omitting parts brings no suffix boundary into a path |
| Index.GroupServes | crates/router/src/router.rs:121-128 | the list stored for a key is the list, in push order, of all APIs that serve the key, not only those of one path |
| Index.OtherGroupsStay | crates/router/src/router.rs:112-119 | collecting one group leaves every other group as it was |
| Routers.TakeGroup | crates/router/src/router.rs:108-120 | one round collects all APIs left with this omitted path, in push order, their suffixes, and leaves the others |
| Routers.StoreGroup | crates/router/src/router.rs:121-128 | one group is stored without overwriting a key of another |
| Routers.AllDone | crates/router/src/router.rs:106-130 | when the buffer is empty, the mapping holds for every omitted path and suffix exactly the APIs that have them |
| Routers.Router.Push | crates/router/src/router.rs:80-90 | the API is buffered last, and known by its id and as omitted if it has one or is |
| Routers.Router.BuildTree | crates/router/src/router.rs:136-191 | building goes through exactly when no `?`, `*` or `+` variable has something below it, and leaves the wired tree of the APIs |
| Routers.Router.Closing | crates/router/src/router.rs:106-130 | closing goes through exactly when no `?`, `*` or `+` variable has something below it; then tree and index are those of all APIs pushed, and the buffer is empty |
| Routers.Router.MatchVarPath | crates/router/src/router.rs:226-298 | the search of a closed router, within as many rounds as the tree has nodes |
| Routers.Router.Locate | crates/router/src/router.rs:198-224 | `locate` gives what looking up and following redirects gives |
| Routers.OneMoreId | crates/router/src/router.rs:85-87 | pushing an API with an id makes it the one the id leads to, and leaves other ids |
| Routers.Router.IdLocate | crates/router/src/router.rs:350-357 | the last API pushed with the id is located, with nothing bound; an id nobody pushed, and the empty one, lead nowhere |
| Routing.BoundIsIrrelevant | crates/router/src/router.rs:208-221 | how many redirects are allowed for does not show in the result |
| Routing.CyclesNeverEnd | crates/router/src/router.rs:208-221 | redirects that lead back to a path never end |
| Routing.RedirectsEndExactly | crates/router/src/router.rs:208-221 | redirects end exactly when no path comes twice, and then within as many as there are targets of redirects in the index |
| RedirectCycle.CycleNeverEnds | crates/router/src/router.rs:208-221 | with `a` redirecting to `b` and `b` to `a`, a request for `a` never ends |
| Routing.LocatedExactly | crates/router/src/router.rs:208-223 | a request is routed exactly when every path on the way finds an API that takes it, and panics exactly when some path on the way makes the search panic; while only keys of the index are on the way nothing is bound |
| Routing.RoutedIsFinal | crates/router/src/router.rs:217-220 | a routed API takes the request and redirects nowhere |
| Routing.FirstComesFirst | crates/router/src/protocol.rs:94-97 | of the APIs found, the first to take the request is chosen |
| Routing.RoutedByLast | crates/router/src/router.rs:205-223 | what is routed is the first API to take the request of those found for the last path on the way; its bindings and suffix are those of the last search on the way, and those it started with if there was none |
| Routing.KeyIsRouted | crates/router/src/router.rs:208-224 | a registered key after which no path comes twice, and every path on the way finds an API that takes the request, is routed to an API that takes the request and redirects nowhere; bindings made before stay while only keys are on the way |
| Routing.MatchIsIndexed | crates/router/src/router.rs:214-214 | after a match with a declared suffix the second look-up in the index finds the APIs of the branch |
| Routing.MatchMissesExactly | crates/router/src/router.rs:210-217 | after a match the second look-up finds the APIs that share the omitted path and declare the suffix found; it misses exactly when no suffix was cut off and none of them declares the empty one |
| Routing.MiddleHasNoSuffix | crates/router/src/router.rs:289-293 | what ends on a middle variable never has a suffix cut off, for a request without a variable's key |
| Routing.SuffixedMiddleIsLost | crates/router/src/router.rs:210-217 | so a route that ends on a middle variable and declares suffixes, but not the empty one, is not reached through the search |
| Routing.RoutedBySearch | crates/router/src/router.rs:210-219 | under the condition on names and parts, what the search routes without a redirect matches the request with its bindings, and its API is indexed under the matched branch |
| Walking.WalkLiterally | crates/router/src/router.rs:244-249 | parts that spell the keys of a branch lead the search to it |
| Walking.FastIsSlow | crates/router/src/router.rs:208-215 | without omissions, and where no sibling is read for a key with a suffix, searching for a key of the index leads back to the key, so to the same APIs |
| Requests.Context.SetRoutedInfo | crates/router/src/request.rs:88-92 | the routed information replaces all that was there |
| Requests.Context.Suffix | crates/router/src/request.rs:57-66 | the suffix found by routing, or the first declared one that ends the path; remembered |
| Requests.SuffixOf | crates/router/src/request.rs:57-66 | a suffix found by routing is reported as it is, and otherwise a declared one that ends the path, or none |
| Requests.ReportedIsLongest | crates/router/src/request.rs:57-66 | without one found by routing, the longest declared suffix that ends the path |
| Requests.DirectHitSuffix | crates/router/src/request.rs:57-66 | on a direct hit the suffix reported is the one that made the key |
| Reversal.SearchReverses | crates/router/src/router.rs:226-324 | in a tree without omissions, where each branch offers fixed parts or one variable, searching for a filled route and a suffix finds the route with exactly its values and the suffix; a `?` or `*` may be left empty exactly when the parent has no APIs |
| Reversal.FilledInIndex | crates/router/src/router.rs:209-209 | a filled route is a key of the index exactly when there was nothing to fill and the suffix is declared |
| Reversal.RouteReversal | crates/router/src/router.rs:198-217 | where also keys and suffixes can be told apart, looking up a filled route and a suffix gives exactly the APIs of the route that declare the suffix, with exactly its values, and misses exactly when none does |
| Reversal.LocateReverses | crates/router/src/router.rs:198-224 | `locate` sends a filled route to the first of its APIs that declares the suffix and takes the request, with exactly its values |
| Reversal.EmptyRootVariable | crates/router/src/router.rs:274-277 | a `?` variable below the root is bound to an empty text by the empty request, not to nothing |
| Sids.SidRoundTrip | crates/session/src/session.rs:73-96 | parsing a printed id gives back its time to live and time exactly for times of at least 16^7; an earlier time makes the id too short |
| Sids.HexLength | crates/session/src/session.rs:75-75 | how many digits a number prints to |
| Sids.SidLayout | crates/session/src/session.rs:90-96 | a printed id: the digest, four digits for the time to live, and the shortest digits for the time |
| Sids.ParsesExactly | crates/session/src/session.rs:76-77 | a number in an id is read exactly when it is hexadecimal digits, perhaps behind a plus sign, for a value within its bound, and then it is the value they spell |
| Sids.Meta.Renew | crates/session/src/session.rs:50-58 | a new id for the same time to live, and the touch forgotten |
| Sids.Meta.RenewWith | crates/session/src/session.rs:50-55 | a given id brings its own time to live and time; one that does not parse leaves all but the touch |
| Sids.MetaStaysOk | crates/session/src/session.rs:50-71 | after any renewal or construction the meta data is what the id encodes |
| SessionObjects.RedisSession.LookForUser | crates/session/src/user.rs:90-109 | the user is loaded at most once, and a missing one does not replace the one in hand |
| SessionObjects.RedisSession.TryTouch | crates/session/src/session.rs:191-200 | at most one touch between renewals |
| SessionObjects.RedisSession.RenewBasic | crates/session/src/session.rs:236-260 | the filtered fields move to a new id, in whatever order the filters come |
| SessionObjects.RedisSession.Renew | crates/session/src/user.rs:204-215 | the fields move to a new id, and the new id is listed under the user found there, or else in hand |
| SessionObjects.RedisSession.LogIn | crates/session/src/user.rs:119-142 | the store and the session after `log_in`, step by step |
| SessionObjects.RedisSession.Logout | crates/session/src/user.rs:167-185 | the store and the session after `logout` |
| SessionObjects.RedisSession.Destroy | crates/session/src/redis.rs:137-147 | the store after `destroy` |
| SessionObjects.RedisSession.FilterSids | crates/session/src/redis.rs:340-362 | exactly the ids with a stored session are kept, and the others leave the set |
| SessionObjects.RedisSession.Sync | crates/session/src/redis.rs:314-328 | the record is written to every listed session that is stored |
| SessionObjects.RedisSession.ClonedDestroy | crates/session/src/redis.rs:224-236 | the old session leaves its user's set and dies; without an old session nothing changes |
| SessionObjects.RedisSession.CloneWithId | crates/session/src/user.rs:220-225 | a copy for another id, with its user unknown |
| SessionObjects.AutoRenew.DoClone | crates/session/src/auto.rs:59-69 | the store and the session after `do_clone` |
| SessionObjects.AutoRenew.TryRenew | crates/session/src/auto.rs:110-137 | the store, the session and the result of `try_renew`, branch by branch |
| SessionLaws.RenewMeans | crates/session/src/user.rs:204-215 | a renewal stores the carried fields under the new id, to live as long as the session says, and lists it under the user; nothing else changes |
| SessionLaws.LoginConserves | crates/session/src/user.rs:118-142 | the new key holds the old fields with the user written over, exactly when there is a time to live; the old key is gone, the new id is listed, the old one is not under the user in hand, and every other session and listing is as before |
| SessionLaws.AutoLoginMoves | crates/session/src/user.rs:156-163 | logging in again from a session that never looked for its user moves the fields and lists the new id exactly when there is a time to live; the old id stays listed, and every other session is as before |
| SessionLaws.LogoutForgets | crates/session/src/user.rs:167-185 | after a logout with a user stored or in hand, the key has its fields without the user, and is gone if it had no other; the id is not listed under the user, nobody is in hand, every other field, session, time to live and listing is as before, and the result tells whether the field was stored |
| SessionLaws.NobodyLogsOut | crates/session/src/user.rs:167-185 | without a user a logout leaves the store as it is, and answers no |
| SessionLaws.LookedForOnce | crates/session/src/user.rs:90-108 | the user is looked for once: what the store holds later does not show |
| SessionLaws.DestroyRemoves | crates/session/src/redis.rs:137-147 | destroying removes the key, and the listing under the user stored or in hand, and nothing else; the result tells whether there was a key |
| SessionLaws.TouchMeans | crates/session/src/session.rs:191-200 | a touch sets the time to live of the key anew, or ends a session without one, and leaves all else; with a touch remembered nothing changes |
| SessionLaws.SidsMean | crates/session/src/redis.rs:340-362 | the ids of a user are those listed that have a stored session, and the others leave the list |
| SessionLaws.CloneKeeps | crates/session/src/auto.rs:59-69 | the current key holds the carried fields, or nothing without a time to live; the old one records it, and no other session changes |
| SessionLaws.TryRenewKeeps | crates/session/src/auto.rs:110-137 | nothing of a stored session is lost exactly when it has a time to live, or nothing but the pointer, or was touched before and is only touched again, or gives up; only its successor may die with it |
| SessionLaws.TryRenewLists | crates/session/src/auto.rs:110-137 | what automatic renewal answers, and what it does to the listings: a copy is listed under the user, a session that gives way is gone and not listed, and no other listing changes |
| Lifecycle.InUseMeans | crates/session/src/auto.rs:115-120 | the successor counts as in use exactly when, measured with the session's time to live, it was touched less than the inactive interval ago and later than the session |
| Lifecycle.GivesWayExactly | crates/session/src/auto.rs:115-128 | a session with a successor gives way exactly when it is due for longer than the interval for originals, and the successor is in use or no id |
| Lifecycle.DueIsPlain | crates/session/src/auto.rs:111-113 | how long a renewal is due is plain subtraction for times the clock reaches |
| SessionLaws.SelfPointerLoses | crates/session/src/auto.rs:119-132 | a session recorded as its own successor would lose its fields |
| SessionLaws.SyncReachesAll | crates/session/src/redis.rs:314-328 | given the index of users, every stored session of the user holds the new record, and no other field or session changes |
| StoreInvariants.NoCycle | crates/session/src/auto.rs:45-56 | ranked successors have no cycle |
| StoreInvariants.PointerKeeps | crates/session/src/auto.rs:64-66 | recording a new session as successor keeps the ranking |
| StoreInvariants.NewSessionKeeps | crates/session/src/user.rs:128-142 | copying a pointer into a new session, as login does, keeps the ranking of successors |
| Lifecycle.LogInKeeps | crates/session/src/user.rs:119-142 | login keeps times to live, listings and successors in order |
| Lifecycle.AutoRenewKeeps | crates/session/src/auto.rs:110-137 | automatic renewal keeps times to live, listings and successors in order |
| Lifecycle.PerformKeeps | crates/session/src/user.rs:89-193 | every operation of every session, however stale, keeps times to live, listings and successors in order |
| Lifecycle.RunKeeps | crates/session/src/redis.rs:86-378 | every run of any sessions over one store, with time passing and keys dying, keeps them in order, and every session in agreement with its id |
| Lifecycle.NoPointerCycle | crates/session/src/auto.rs:73-107 | after every run, following successors never leads back |
| Lifecycle.UserIndexHolds | crates/session/src/redis.rs:281-328 | after every run, every stored session that carries a user is listed under the user, so `sync` reaches them all |
| Lifecycle.TtlHolds | crates/session/src/redis.rs:149-188 | after every run the meta data is what the ids encode, no key outlives what its id allows, and `ttl_passed` is the time since the last touch, without underflow |
| Lifecycle.TtlPassedExactly | crates/session/src/redis.rs:249-260 | the time passed is right exactly when measured with the time to live in the key's own id, which a successor kept through a login may not have |
| Lifecycle.AutoRenewalIsSafe | crates/session/src/auto.rs:110-137 | in every reachable state automatic renewal loses nothing of a stored session exactly when it has a time to live, or nothing to lose, or was touched before and is only touched again, or gives up |
| SessionRuns.ZeroSessionIsLost | crates/session/src/auto.rs:110-118 | a run that ends with a stored session without a time to live, which automatic renewal loses |
| SessionRuns.SuccessorMeasuredWrong | crates/session/src/redis.rs:249-260 | a run that ends with a successor of another time to live, for which the time passed since its touch comes out wrapped around |
| Utf8.DecodeOfEncode | crates/protocols/tokio/src/protocol.rs:68-68 | decoding the bytes of a text gives the text |
| Utf8.EncodeOfDecode | crates/protocols/tokio/src/protocol.rs:68-68 | only well-formed bytes are decoded |
| Utf8.EncodedExactly | crates/protocols/tokio/src/protocol.rs:92-100 | the bytes of a character are the shortest ones that carry its number, as RFC 3629 has it |
| Protocols.ReadMessage | crates/protocols/tokio/src/protocol.rs:64-81 | the parser reads what the parsing function says, heads and start of the body |
| Receiving.AllPath | crates/protocols/tokio/src/protocol.rs:67-79 | a message without the separator is all path, white space around it aside, and its body starts at 0 |
| Receiving.NoPath | crates/protocols/tokio/src/protocol.rs:67-67 | bytes that are no text give the empty path, and nothing else |
| Receiving.LinesSent | crates/protocols/tokio/src/protocol.rs:69-69 | lines are read without their line feeds, and without a carriage return in front of one |
| Receiving.HeadsReceived | crates/protocols/tokio/src/protocol.rs:68-79 | of any text with the separator: the first line up to its first semicolon is the id and the rest the path, or all of it the path without one; a further line is a head, up to its first colon, with an empty value if there is none; of lines with one name the last counts |
| Protocols.PrintHeadBytes | crates/protocols/tokio/src/protocol.rs:91-100 | the printer writes the first line, every head once, and the separator |
| Protocols.PrintHeadText | crates/protocols/tokio-tungstenite/src/protocol.rs:99-109 | the text printer writes the first line, every head once, and the separator |
| Protocols.SemiTcpProtocol.From | crates/protocols/tokio/src/protocol.rs:63-82 | a message object, or the panic, for any bytes |
| Protocols.SemiTcpProtocol.Body | crates/protocols/tokio/src/protocol.rs:129-132 | the text from the start of the body on, once; an error for bytes that are no text, and the panic for a start inside a character |
| Protocols.SemiWebsocketProtocol.Body | crates/protocols/tokio-tungstenite/src/protocol.rs:142-145 | the text from the start of the body on, once, for a text or a binary message; with the same error and panic as over TCP |
| Messages.TornExactly | crates/protocols/tokio/src/protocol.rs:130-131 | taking the body panics exactly when its start is not between two characters |
| Messages.BodyIsTheRest | crates/protocols/tokio/src/protocol.rs:130-131 | from between two characters, the body is the rest of the text |
| Messages.NoTextExactly | crates/protocols/tokio/src/protocol.rs:130-131 | there is no body exactly when the bytes are no text |
| Messages.IndexIsEarly | crates/protocols/tokio/src/protocol.rs:68-78 | the parser takes the body to start too early by just the bytes of the white space in front of the message |
| Messages.TornOnReceipt | crates/protocols/tokio/src/protocol.rs:68-131 | taking the body of a received text panics exactly when it holds the separator and no whole characters before its body have as many bytes as the white space in front |
| Messages.NeverTorn | crates/protocols/tokio/src/protocol.rs:68-131 | with up to eight bytes of white space in front, so with none, taking the body never panics |
| Messages.BodyIsTorn | crates/protocols/tokio/src/protocol.rs:68-131 | nine spaces, a character of two bytes and the separator are a message whose body makes it panic |
| Utf8.BoundaryExactly | crates/protocols/tokio/src/protocol.rs:130-131 | what follows an index of well-formed bytes is well-formed exactly when the index is between two characters |
| Protocols.SemiTcpProtocol.Into | crates/protocols/tokio/src/protocol.rs:84-108 | the id and path of the request, the heads of the response, the separator and the body |
| Protocols.HeadsGiveBack | crates/router/src/protocol.rs:72-78 | the id and the path sent back are those of the message that was read |
| Protocols.SemiWebsocketProtocol.Into | crates/protocols/tokio-tungstenite/src/protocol.rs:74-121 | the id and path of the request, the heads of the response, the separator and the body, as text or in bytes; for a body that is well-formed UTF-8 both forms have the same bytes |
| Messages.MessageRoundTrip | crates/protocols/tokio/src/protocol.rs:63-108 | reading a printed message gives back id, path and heads, in whatever order they were printed, and the body behind one line feed |
| Messages.RoundTripExactly | crates/protocols/tokio/src/protocol.rs:68-78 | a printable message is read back exactly when its first line is not empty and does not start with white space |
| Messages.CrashesExactly | crates/protocols/tokio/src/protocol.rs:69-71 | the parser panics exactly on text that starts with the separator, white space aside |
| Messages.NotInLines | crates/protocols/tokio/src/protocol.rs:69-69 | the separator is not met inside heads that are free of it |
| Messages.FormsAgree | crates/protocols/tokio-tungstenite/src/protocol.rs:82-117 | for a body that is well-formed UTF-8 the binary and the text form have the same bytes |

## Left out

- Macros, example servers, clients and controllers, the Hyper and CLI protocols, and the serializers: wiring, or thin wrappers over libraries.
- `set_separator`: other separators than the default ones.
- `call_controller`, event handlers, context data and typed parameters: the controller is a name here, and whether an API's method takes a request is a given predicate.
- The locks and shared pointers of the tree: it is a plain mutable tree with parent links, and lock errors do not happen. A panic is a result of its own.
- `remove`, `set_if_absent`, `parents_until` and the early exits of `traversal`: unused by the router.
- The path texts of fills are made anew and leaked by the code; here they are values.
- The asynchronous twins of the session operations: the bodies are the same, and an operation is one step. Interleaving within an operation is not modelled.
- Failing Redis commands, a session without a connection to Redis, and the dying of the sets of ids by user.
- SHA-256, randomness and the clock: the digest is any text of 64 characters, the time a number.
- JSON: a user record is a value with an id; other values are texts. `get` ends before reading the JSON.
- `connection.rs`, the connection feature of renewal, and the pool of ids of the test feature.
- `Meta::config` on its own, and configured names of ids, keys and fields: one constant name each.
- The copy of itself that a session keeps is a value, since nobody else can hold it.
- `SessionObjects.AutoRenew.TryRenew`: the intervals are the default ones until set; a `$newid` field always holds an id, never a record.
- Ids are sequences of characters: cutting a non-ASCII id inside a character, which panics, is not modelled.
- `Soundness.SearchBindsCorrectly`: the condition on names is shown to be exact for routers where every branch offers fixed parts or one variable and nothing is omitted (`Rebinding.BindingExactly`). Elsewhere a meeting of names does harm only when the search gets to it, which also depends on the routes that may take the request first.
- `Walking.FastIsSlow`: it is about routers without omitted parts; with them, the search may step on another branch first.
- `Decided.DecidedExactly`, `Reversal.SearchReverses`: about routers where nothing is omitted and every branch offers fixed parts or one variable. Elsewhere the search may take another branch first; `Choice.SearchChooses` says which.
- What the library makes of a body that is not well-formed UTF-8 in the text form of a WebSocket message: a parameter.
- Routing of raw responses, binding to sockets, and logging.
