/** In which orders a table of pool renames is accepted (src/maps/incremental.rs): the renames come from a
    hash map, so they are applied, and checked one at a time, in an arbitrary order. */
module RenameOrder {
  import opened Wrappers
  import opened OsdMap
  import opened Incremental

  // --- every order

  /** No rename targets a name another pool holds or another rename wants. */
  ghost predicate RenamesSafe(n: Names, names: map<I64, string>) {
    && (forall id :: id in names ==> id in n.pools)
    && (forall id :: id in names && names[id] in n.index ==> n.index[names[id]] == id)
    && (forall id, other :: id in names && other in names && id != other ==> names[id] != names[other])
  }

  /** Where every name in the index comes from while safe renames are applied. */
  lemma {:induction false} SafeRenamesSucceed(n: Names, names: map<I64, string>, order: seq<I64>)
    requires RenamesSafe(n, names) && forall id :: id in order ==> id in names
    requires forall i, j :: 0 <= i < j < |order| ==> order[i] != order[j]
    ensures RenameAll(n, names, order).Some?
    ensures var r := RenameAll(n, names, order).value;
            && r.pools.Keys == n.pools.Keys
            && forall name :: name in r.index ==>
                 || (name in n.index && r.index[name] == n.index[name])
                 || (r.index[name] in order && names[r.index[name]] == name)
  {
    if order == [] {
    } else {
      var init, last := order[..|order| - 1], order[|order| - 1];
      assert order == init + [last];
      assert last !in init;
      SafeRenamesSucceed(n, names, init);
    }
  }

  lemma {:induction false} OrderExists(keys: set<I64>, front: seq<I64>) returns (order: seq<I64>)
    requires forall id :: id in front ==> id in keys
    requires forall i, j :: 0 <= i < j < |front| ==> front[i] != front[j]
    ensures IsOrder(order, keys) && front <= order
    decreases keys - (set id | id in front)
  {
    var rest := keys - (set id | id in front);
    if rest == {} {
      assert forall id :: id in keys && id !in front ==> id in rest;
      order := front;
    } else {
      var id: I64 :| id in rest;
      assert id !in front;
      var longer := front + [id];
      assert (set x | x in longer) == (set x | x in front) + {id};
      order := OrderExists(keys, longer);
    }
  }

  /** An order that refuses unsafe renames. */
  lemma UnsafeRenamesFail(n: Names, names: map<I64, string>) returns (order: seq<I64>)
    requires !RenamesSafe(n, names)
    ensures IsOrder(order, names.Keys) && RenameAll(n, names, order).None?
  {
    if id :| id in names && (id !in n.pools || (names[id] in n.index && n.index[names[id]] != id)) {
      order := OrderExists(names.Keys, [id]);
      assert order[..1] == [id] && order[..1][..0] == [];
      RefusalIsFinal(n, names, order, 1);
    } else {
      var id, other :| id in names && other in names && id != other && names[id] == names[other];
      order := OrderExists(names.Keys, [id, other]);
      assert order[..2] == [id, other] && order[..2][..1] == [id] && [id][..0] == [];
      RefusalIsFinal(n, names, order, 2);
    }
  }

  /** Renames succeed in every order exactly when they are safe. */
  lemma EveryOrderSucceedsIffSafe(n: Names, names: map<I64, string>)
    ensures (forall order :: IsOrder(order, names.Keys) ==> RenameAll(n, names, order).Some?) <==> RenamesSafe(n, names)
  {
    if RenamesSafe(n, names) {
      forall order | IsOrder(order, names.Keys) ensures RenameAll(n, names, order).Some? {
        SafeRenamesSucceed(n, names, order);
      }
    } else {
      var order := UnsafeRenamesFail(n, names);
    }
  }

  // --- some order

  /** The pool that still holds the name a rename wants. */
  predicate WaitsFor(n: Names, names: map<I64, string>, id: I64, holder: I64) {
    id in names && names[id] in n.index && n.index[names[id]] == holder != id
  }

  /** A rename that waits for a rename of the group. */
  predicate WaitsIn(n: Names, names: map<I64, string>, id: I64, group: set<I64>) {
    id in names && names[id] in n.index && n.index[names[id]] in group && n.index[names[id]] != id
  }

  /** Renames each of which waits for another of them. */
  ghost predicate Stuck(n: Names, names: map<I64, string>, group: set<I64>) {
    group != {} && forall id :: id in group ==> WaitsIn(n, names, id, group)
  }

  /** The renames to the empty name. */
  ghost function Emptied(names: map<I64, string>): (ids: set<I64>) {
    set id | id in names && names[id] == ""
  }

  /** The renames that give a nameless pool a name. */
  ghost function Christened(n: Names, names: map<I64, string>): (ids: set<I64>) {
    set id | id in names && names[id] != "" && id in n.pools && n.pools[id].name == ""
  }

  /** Every rename is of a known pool, and to a name of its own unless it is the empty one; a name held by
      another pool is given up by that pool; no group of renames waits for itself; and there is a nameless
      pool to be named between any two that lose their name. */
  ghost predicate RenamesPossible(n: Names, names: map<I64, string>) {
    && (forall id :: id in names ==> id in n.pools)
    && (forall id, other :: id in names && other in names && id != other && names[id] == names[other] ==>
      names[id] == "")
    && (forall id, holder :: WaitsFor(n, names, id, holder) ==> holder in names)
    && (forall group :: !Stuck(n, names, group))
    && |Emptied(names)| <= |Christened(n, names)| + 1
  }

  /** A right index, without an entry for the empty name. */
  ghost predicate Orderly(n: Names) {
    Nearly(n) && "" !in n.index
  }

  predicate Known(names: map<I64, string>, order: seq<I64>) {
    && (forall id :: id in order ==> id in names)
    && (forall i, j :: 0 <= i < j < |order| ==> order[i] != order[j])
  }

  /** What a successful prefix of an order has made of the pools. */
  lemma RenamedAt(n: Names, names: map<I64, string>, order: seq<I64>, id: I64)
    requires Known(names, order) && Nearly(n) && RenameAll(n, names, order).Some?
    ensures var r := RenameAll(n, names, order).value;
            && Nearly(r) && r.pools.Keys == n.pools.Keys
            && (id in n.pools ==> r.pools[id].name == if id in order then names[id] else n.pools[id].name)
  {
    hide Nearly, RenameAll;
    RenamesKeep(n, names, order);
  }

  /** A name in the index was there before or has been given out. */
  lemma {:induction false} IndexedFrom(n: Names, names: map<I64, string>, order: seq<I64>, name: string)
    requires (forall x :: x in order ==> x in names) && RenameAll(n, names, order).Some?
    ensures var r := RenameAll(n, names, order).value;
            name in r.index ==> name in n.index || (r.index[name] in order && names[r.index[name]] == name)
  {
    if order == [] {
    } else {
      IndexedFrom(n, names, order[..|order| - 1], name);
    }
  }

  /** When one more rename is accepted. */
  lemma AcceptedIff(n: Names, names: map<I64, string>, order: seq<I64>, id: I64)
    requires Known(names, order + [id]) && Orderly(n) && RenameAll(n, names, order).Some?
    ensures var r := RenameAll(n, names, order).value;
            && (RenameAll(n, names, order + [id]).Some? <==>
                id in n.pools && (names[id] in r.index ==> r.index[names[id]] == id))
            && (names[id] == "" ==> (RenameAll(n, names, order + [id]).Some? <==> id in n.pools && "" !in r.index))
  {
    hide RenameAll, Nearly;
    LastIsNew(order, id);
    RenamedAt(n, names, order, id);
    RenameNext(n, names, order, id);
    IndexedFrom(n, names, order, "");
  }

  lemma LastIsNew(order: seq<I64>, id: I64)
    requires forall i, j :: 0 <= i < j < |order + [id]| ==> (order + [id])[i] != (order + [id])[j]
    ensures id !in order && forall i, j :: 0 <= i < j < |order| ==> order[i] != order[j]
  {
    forall i, j | 0 <= i < j < |order| ensures order[i] != order[j] {
      assert (order + [id])[i] != (order + [id])[j];
    }
    forall i | 0 <= i < |order| ensures order[i] != id {
      assert (order + [id])[i] != (order + [id])[|order|];
    }
  }

  /** What one more rename does to the entry for the empty name. */
  lemma EmptyEntry(n: Names, names: map<I64, string>, order: seq<I64>, id: I64)
    requires Known(names, order + [id]) && Orderly(n)
    requires RenameAll(n, names, order).Some? && RenameAll(n, names, order + [id]).Some?
    ensures "" in RenameAll(n, names, order + [id]).value.index <==>
            names[id] == "" || (id !in Christened(n, names) && "" in RenameAll(n, names, order).value.index)
  {
    hide RenameAll, Nearly;
    LastIsNew(order, id);
    AcceptedIff(n, names, order, id);
    RenamedAt(n, names, order, id);
    RenameNext(n, names, order, id);
  }

  function Done(order: seq<I64>): (ids: set<I64>) {
    set id | id in order
  }

  lemma DoneNext(order: seq<I64>, id: I64, ids: set<I64>)
    requires id !in order
    ensures Done(order + [id]) == Done(order) + {id}
    ensures |ids * Done(order + [id])| == |ids * Done(order)| + if id in ids then 1 else 0
  {
    assert Done(order + [id]) == Done(order) + {id};
    assert ids * Done(order + [id]) == if id in ids then ids * Done(order) + {id} else ids * Done(order);
  }

  // --- an order that succeeds shows that the renames are possible

  lemma AcceptedAt(n: Names, names: map<I64, string>, order: seq<I64>, id: I64, other: I64)
    requires Known(names, order + [id]) && Orderly(n)
    requires RenameAll(n, names, order).Some? && RenameAll(n, names, order + [id]).Some?
    ensures id in n.pools
    ensures WaitsFor(n, names, id, other) ==> other in order
    ensures other in order && other in n.pools && names[other] == names[id] ==> names[id] == ""
  {
    hide RenameAll;
    LastIsNew(order, id);
    AcceptedIff(n, names, order, id);
    RenamedAt(n, names, order, other);
  }

  lemma PrefixSucceeds(n: Names, names: map<I64, string>, order: seq<I64>, i: nat)
    requires (forall x :: x in order ==> x in names) && i <= |order| && RenameAll(n, names, order).Some?
    ensures RenameAll(n, names, order[..i]).Some?
  {
    hide RenameAll;
    if RenameAll(n, names, order[..i]).None? {
      RefusalIsFinal(n, names, order, i);
    }
  }

  lemma AcceptedIn(n: Names, names: map<I64, string>, order: seq<I64>, j: nat, other: I64)
    requires Orderly(n) && IsOrder(order, names.Keys) && RenameAll(n, names, order).Some? && j < |order|
    ensures order[j] in n.pools
    ensures WaitsFor(n, names, order[j], other) ==> other in order[..j]
    ensures other in order[..j] && other in n.pools && names[other] == names[order[j]] ==> names[order[j]] == ""
  {
    hide Orderly, RenameAll, WaitsFor;
    PrefixSucceeds(n, names, order, j);
    PrefixSucceeds(n, names, order, j + 1);
    assert order[..j + 1] == order[..j] + [order[j]];
    AcceptedAt(n, names, order[..j], order[j], other);
  }

  function PositionOf(order: seq<I64>, id: I64): (i: nat)
    requires id in order
    ensures i < |order| && order[i] == id
  {
    if order[0] == id then 0 else 1 + PositionOf(order[1..], id)
  }

  /** The first element of an order that belongs to a group. */
  lemma FirstOf(order: seq<I64>, group: set<I64>) returns (j: nat)
    requires group != {} && forall id :: id in group ==> id in order
    ensures j < |order| && order[j] in group && forall i :: 0 <= i < j ==> order[i] !in group
  {
    var x: I64 :| x in group;
    var last := PositionOf(order, x);
    j := 0;
    while order[j] !in group
      invariant j <= last && forall i :: 0 <= i < j ==> order[i] !in group
      decreases last - j
    {
      j := j + 1;
    }
  }

  lemma NoneStuck(n: Names, names: map<I64, string>, order: seq<I64>, group: set<I64>)
    requires Orderly(n) && IsOrder(order, names.Keys) && RenameAll(n, names, order).Some?
    ensures !Stuck(n, names, group)
  {
    hide Orderly, RenameAll;
    if Stuck(n, names, group) {
      var j := FirstOf(order, group);
      AcceptedIn(n, names, order, j, n.index[names[order[j]]]);
    }
  }

  /** At any time at most one pool more has lost its name than nameless ones have been named. */
  lemma {:induction false} EmptiedSoFar(n: Names, names: map<I64, string>, order: seq<I64>)
    requires Known(names, order) && Orderly(n) && RenameAll(n, names, order).Some?
    ensures |Emptied(names) * Done(order)| <=
            |Christened(n, names) * Done(order)| + if "" in RenameAll(n, names, order).value.index then 1 else 0
  {
    hide RenameAll, Nearly;
    if order == [] {
      assert Emptied(names) * Done([]) == {};
    } else {
      var init, id := order[..|order| - 1], order[|order| - 1];
      assert order == init + [id];
      LastIsNew(init, id);
      PrefixSucceeds(n, names, order, |init|);
      EmptiedSoFar(n, names, init);
      AcceptedIff(n, names, init, id);
      EmptyEntry(n, names, init, id);
      DoneNext(init, id, Emptied(names));
      DoneNext(init, id, Christened(n, names));
    }
  }

  lemma SuccessIsPossible(n: Names, names: map<I64, string>, order: seq<I64>)
    requires Orderly(n) && IsOrder(order, names.Keys) && RenameAll(n, names, order).Some?
    ensures RenamesPossible(n, names)
  {
    hide Orderly, RenameAll, Stuck;
    forall id | id in names ensures id in n.pools {
      AcceptedIn(n, names, order, PositionOf(order, id), id);
    }
    forall id, other | id in names && other in names && id != other && names[id] == names[other]
      ensures names[id] == ""
    {
      var i, j := PositionOf(order, id), PositionOf(order, other);
      if i < j {
        AcceptedIn(n, names, order, j, id);
        assert order[..j][i] == id;
      } else {
        AcceptedIn(n, names, order, i, other);
        assert order[..i][j] == other;
      }
    }
    forall id, holder | WaitsFor(n, names, id, holder) ensures holder in names {
      AcceptedIn(n, names, order, PositionOf(order, id), holder);
    }
    forall group ensures !Stuck(n, names, group) {
      NoneStuck(n, names, order, group);
    }
    EmptiedSoFar(n, names, order);
    assert Emptied(names) * Done(order) == Emptied(names);
    assert Christened(n, names) * Done(order) == Christened(n, names);
  }

  // --- possible renames have an order that succeeds

  function Rest(names: map<I64, string>, front: seq<I64>): (ids: set<I64>) {
    names.Keys - Done(front)
  }

  /** With each of its renames a group holds the one it still waits for. */
  ghost predicate Closed(n: Names, names: map<I64, string>, rest: set<I64>, group: set<I64>) {
    group <= rest && forall id, holder :: id in group && WaitsFor(n, names, id, holder) && holder in rest ==>
      holder in group
  }

  /** A remaining group that can be carried out without a rename to the empty name, and names a nameless pool. */
  ghost predicate Relief(n: Names, names: map<I64, string>, rest: set<I64>, group: set<I64>) {
    Closed(n, names, rest, group) && group * Emptied(names) == {} && group * Christened(n, names) != {}
  }

  /** What remains can be carried out, with the empty name taken or not: enough nameless pools remain to be
      named, and where the empty name is taken and wanted again, one of them can be named first. */
  ghost predicate OnTrack(n: Names, names: map<I64, string>, rest: set<I64>, taken: bool) {
    && |Emptied(names) * rest| <= |Christened(n, names) * rest| + (if taken then 0 else 1)
    && (taken && Emptied(names) * rest != {} ==> exists group :: Relief(n, names, rest, group))
  }

  /** Whether the empty name is taken after one more rename. */
  ghost predicate TakenAfter(n: Names, names: map<I64, string>, taken: bool, id: I64) {
    id in Emptied(names) || (id !in Christened(n, names) && taken)
  }

  /** A remaining rename that waits for none that remains. */
  ghost predicate Ready(n: Names, names: map<I64, string>, rest: set<I64>, id: I64) {
    id in rest && forall holder :: WaitsFor(n, names, id, holder) ==> holder !in rest
  }

  /** Of a closed group one rename is ready. */
  lemma ReadyOf(n: Names, names: map<I64, string>, rest: set<I64>, group: set<I64>) returns (id: I64)
    requires RenamesPossible(n, names) && Closed(n, names, rest, group) && group != {}
    ensures id in group && Ready(n, names, rest, id)
  {
    assert !Stuck(n, names, group);
    id :| id in group && !WaitsIn(n, names, id, group);
  }

  lemma ReadySucceeds(n: Names, names: map<I64, string>, front: seq<I64>, id: I64)
    requires Orderly(n) && RenamesPossible(n, names) && Known(names, front) && RenameAll(n, names, front).Some?
    requires Ready(n, names, Rest(names, front), id)
    requires id in Emptied(names) ==> "" !in RenameAll(n, names, front).value.index
    ensures Known(names, front + [id]) && RenameAll(n, names, front + [id]).Some?
  {
    hide RenameAll;
    var r := RenameAll(n, names, front).value;
    AcceptedIff(n, names, front, id);
    if names[id] in r.index {
      var holder := r.index[names[id]];
      RenamedAt(n, names, front, holder);
      assert names[id] != "" && holder !in front && holder != id ==> WaitsFor(n, names, id, holder);
    }
  }

  /** What a rename waits for, directly or not, among those that remain: a closed group, in which at most
      the last, which waits for nothing, takes the empty name. */
  lemma {:induction false} Ancestors(n: Names, names: map<I64, string>, rest: set<I64>, id: I64, seen: set<I64>)
    returns (group: set<I64>, last: I64)
    requires Orderly(n) && RenamesPossible(n, names) && rest <= names.Keys && id in rest && seen <= rest
    requires forall x :: x in seen ==> WaitsIn(n, names, x, seen + {id})
    ensures id in group && Closed(n, names, rest, group) && group * Emptied(names) <= {last}
    decreases rest - seen
  {
    hide RenamesPossible, Orderly, Closed, Emptied;
    if WaitsIn(n, names, id, rest) {
      var holder := n.index[names[id]];
      NotSeen(n, names, id, seen);
      group, last := Ancestors(n, names, rest, holder, seen + {id});
      Joined(n, names, rest, id, group);
      group := group + {id};
    } else {
      group, last := {id}, id;
      Alone(n, names, rest, id);
    }
  }

  lemma NotSeen(n: Names, names: map<I64, string>, id: I64, seen: set<I64>)
    requires RenamesPossible(n, names) && forall x :: x in seen ==> WaitsIn(n, names, x, seen + {id})
    ensures !WaitsIn(n, names, id, seen + {id})
  {
    assert !Stuck(n, names, seen + {id});
  }

  lemma Joined(n: Names, names: map<I64, string>, rest: set<I64>, id: I64, group: set<I64>)
    requires Orderly(n) && id in rest && WaitsIn(n, names, id, group) && Closed(n, names, rest, group)
    ensures Closed(n, names, rest, group + {id}) && (group + {id}) * Emptied(names) == group * Emptied(names)
  {
    hide Nearly;
    assert id !in Emptied(names);
  }

  lemma Alone(n: Names, names: map<I64, string>, rest: set<I64>, id: I64)
    requires id in rest && !WaitsIn(n, names, id, rest)
    ensures Closed(n, names, rest, {id})
  {
  }

  /** A rename to the empty name after which a nameless pool can be named, if there is one. */
  lemma NextEmptied(n: Names, names: map<I64, string>, rest: set<I64>) returns (id: I64)
    requires Orderly(n) && RenamesPossible(n, names) && rest <= names.Keys && Emptied(names) * rest != {}
    ensures id in Emptied(names) * rest
    ensures Christened(n, names) * rest != {} ==> exists group :: Relief(n, names, rest - {id}, group)
  {
    id :| id in Emptied(names) * rest;
    if u: I64 :| u in Christened(n, names) * rest {
      var group, last := Ancestors(n, names, rest, u, {});
      if last in group && last in Emptied(names) {
        id := last;
      }
      forall x | x in group - {id} ensures x !in Emptied(names) {
        assert x in Emptied(names) ==> x in group * Emptied(names);
      }
      assert u in (group - {id}) * Christened(n, names);
      assert Relief(n, names, rest - {id}, group - {id});
    }
  }

  lemma Fewer(ids: set<I64>, rest: set<I64>, id: I64)
    requires id in rest
    ensures |ids * (rest - {id})| == |ids * rest| - if id in ids then 1 else 0
  {
    assert ids * (rest - {id}) == if id in ids then ids * rest - {id} else ids * rest;
  }

  /** Where no rename to the empty name remains, any that is ready will do. */
  lemma NextPlain(n: Names, names: map<I64, string>, rest: set<I64>, taken: bool) returns (id: I64)
    requires RenamesPossible(n, names) && rest != {} && Emptied(names) * rest == {}
    ensures Ready(n, names, rest, id) && id !in Emptied(names)
    ensures OnTrack(n, names, rest - {id}, TakenAfter(n, names, taken, id))
  {
    hide RenamesPossible, Christened, Emptied;
    assert Closed(n, names, rest, rest);
    id := ReadyOf(n, names, rest, rest);
    assert id in Emptied(names) ==> id in Emptied(names) * rest;
    assert Emptied(names) * (rest - {id}) == {};
  }

  /** Where the empty name is taken and wanted again, a rename that leads to naming a nameless pool. */
  lemma NextRelief(n: Names, names: map<I64, string>, rest: set<I64>, group: set<I64>) returns (id: I64)
    requires RenamesPossible(n, names) && OnTrack(n, names, rest, true) && Relief(n, names, rest, group)
    ensures Ready(n, names, rest, id) && id !in Emptied(names)
    ensures OnTrack(n, names, rest - {id}, TakenAfter(n, names, true, id))
  {
    hide RenamesPossible, Christened, Emptied;
    id := ReadyOf(n, names, rest, group);
    assert id in Emptied(names) ==> id in group * Emptied(names);
    Fewer(Emptied(names), rest, id);
    Fewer(Christened(n, names), rest, id);
    if id !in Christened(n, names) {
      ReliefStays(n, names, rest, group, id);
    }
  }

  lemma ReliefStays(n: Names, names: map<I64, string>, rest: set<I64>, group: set<I64>, id: I64)
    requires Relief(n, names, rest, group) && id !in Christened(n, names)
    ensures Relief(n, names, rest - {id}, group - {id})
  {
    hide Christened, Emptied, WaitsFor;
    var u: I64 :| u in group * Christened(n, names);
    assert u in (group - {id}) * Christened(n, names);
  }

  /** Where the empty name is free and wanted, a rename to it. */
  lemma NextFree(n: Names, names: map<I64, string>, rest: set<I64>) returns (id: I64)
    requires Orderly(n) && RenamesPossible(n, names) && rest <= names.Keys
    requires OnTrack(n, names, rest, false) && Emptied(names) * rest != {}
    ensures Ready(n, names, rest, id)
    ensures OnTrack(n, names, rest - {id}, TakenAfter(n, names, false, id))
  {
    id := NextEmptied(n, names, rest);
    assert id !in Christened(n, names) && Ready(n, names, rest, id);
    hide Orderly, RenamesPossible, Christened, Emptied, Relief, Ready;
    Fewer(Emptied(names), rest, id);
    Fewer(Christened(n, names), rest, id);
  }

  /** A rename that can come next. */
  lemma Next(n: Names, names: map<I64, string>, rest: set<I64>, taken: bool) returns (id: I64)
    requires Orderly(n) && RenamesPossible(n, names) && rest <= names.Keys && rest != {}
    requires OnTrack(n, names, rest, taken)
    ensures Ready(n, names, rest, id) && (taken ==> id !in Emptied(names))
    ensures OnTrack(n, names, rest - {id}, TakenAfter(n, names, taken, id))
  {
    hide Orderly, RenamesPossible, Christened, Emptied, Relief, Ready, TakenAfter;
    if Emptied(names) * rest == {} {
      id := NextPlain(n, names, rest, taken);
    } else if taken {
      var group :| Relief(n, names, rest, group);
      id := NextRelief(n, names, rest, group);
    } else {
      id := NextFree(n, names, rest);
    }
  }

  /** Renames on track can be put into an order that succeeds. */
  lemma {:induction false} PossibleSucceeds(n: Names, names: map<I64, string>, front: seq<I64>)
    returns (order: seq<I64>)
    requires Orderly(n) && RenamesPossible(n, names) && Known(names, front) && RenameAll(n, names, front).Some?
    requires OnTrack(n, names, Rest(names, front), "" in RenameAll(n, names, front).value.index)
    ensures IsOrder(order, names.Keys) && RenameAll(n, names, order).Some?
    decreases Rest(names, front)
  {
    hide Orderly, RenamesPossible, RenameAll, OnTrack, TakenAfter, Ready;
    var rest := Rest(names, front);
    if rest == {} {
      assert forall id :: id in names && id !in front ==> id in rest;
      order := front;
    } else {
      var id := Next(n, names, rest, "" in RenameAll(n, names, front).value.index);
      ReadySucceeds(n, names, front, id);
      Advanced(n, names, front, id);
      order := PossibleSucceeds(n, names, front + [id]);
    }
  }

  lemma Advanced(n: Names, names: map<I64, string>, front: seq<I64>, id: I64)
    requires Orderly(n) && Known(names, front) && Known(names, front + [id]) && Ready(n, names, Rest(names, front), id)
    requires RenameAll(n, names, front).Some? && RenameAll(n, names, front + [id]).Some?
    ensures id in Rest(names, front) && Rest(names, front + [id]) == Rest(names, front) - {id}
    ensures "" in RenameAll(n, names, front + [id]).value.index <==>
            TakenAfter(n, names, "" in RenameAll(n, names, front).value.index, id)
  {
    hide RenameAll, Nearly;
    EmptyEntry(n, names, front, id);
    DoneNext(front, id, {});
  }

  /** Some order succeeds exactly when the renames are possible. */
  lemma SomeOrderSucceedsIff(n: Names, names: map<I64, string>)
    requires Orderly(n)
    ensures (exists order :: IsOrder(order, names.Keys) && RenameAll(n, names, order).Some?)
        <==> RenamesPossible(n, names)
  {
    hide Nearly, RenameAll, Stuck;
    if order :| IsOrder(order, names.Keys) && RenameAll(n, names, order).Some? {
      SuccessIsPossible(n, names, order);
    }
    if RenamesPossible(n, names) {
      RenameNothing(n, names);
      assert Emptied(names) * Rest(names, []) == Emptied(names);
      assert Christened(n, names) * Rest(names, []) == Christened(n, names);
      var order := PossibleSucceeds(n, names, []);
    }
  }

  /** Acceptance depends on the order exactly when the renames are possible but not safe. */
  lemma OrderMattersIff(n: Names, names: map<I64, string>)
    requires Orderly(n)
    ensures (&& (exists order :: IsOrder(order, names.Keys) && RenameAll(n, names, order).Some?)
             && (exists order :: IsOrder(order, names.Keys) && RenameAll(n, names, order).None?))
         <==> RenamesPossible(n, names) && !RenamesSafe(n, names)
  {
    hide Orderly, RenameAll, RenamesPossible, RenamesSafe;
    SomeOrderSucceedsIff(n, names);
    EveryOrderSucceedsIffSafe(n, names);
  }

  // --- examples

  /** Two pools that exchange their names are refused in every order. */
  lemma SwapIsRefused(a: Pool, b: Pool, order: seq<I64>)
    requires a.name == "x" && b.name == "y" && IsOrder(order, {1, 2})
    ensures RenameAll(Names(map[1 := a, 2 := b], map["x" := 1, "y" := 2]), map[1 := "y", 2 := "x"], order).None?
  {
    hide RenameAll;
    var n := Names(map[1 := a, 2 := b], map["x" := 1, "y" := 2]);
    var names := map[1 := "y", 2 := "x"];
    assert names.Keys == {1, 2};
    assert Stuck(n, names, {1, 2});
    SomeOrderSucceedsIff(n, names);
  }

  /** Handing a name on from one pool to another succeeds in one order and fails in the other. */
  lemma OrderMatters(a: Pool, b: Pool)
    requires a.name == "x" && b.name == "y"
    ensures var n := Names(map[1 := a, 2 := b], map["x" := 1, "y" := 2]);
            var names := map[1 := "y", 2 := "z"];
            RenameAll(n, names, [2, 1]).Some? && RenameAll(n, names, [1, 2]).None?
  {
    var n := Names(map[1 := a, 2 := b], map["x" := 1, "y" := 2]);
    var names := map[1 := "y", 2 := "z"];
    assert [2, 1][..1] == [2] && [1, 2][..1] == [1];
    assert [2][..0] == [] && [1][..0] == [];
    assert RenameAll(n, names, [2]).Some? && "y" !in RenameAll(n, names, [2]).value.index;
    assert RenameAll(n, names, [1]).None?;
  }

  /** Two pools that lose their names need a nameless one to be named between them. */
  lemma EmptyNamesAlternate(a: Pool, b: Pool, c: Pool)
    requires a.name == "x" && b.name == "y" && c.name == ""
    ensures var n := Names(map[1 := a, 2 := b, 3 := c], map["x" := 1, "y" := 2]);
            var names := map[1 := "", 2 := "", 3 := "z"];
            RenameAll(n, names, [1, 3, 2]).Some? && RenameAll(n, names, [1, 2, 3]).None?
  {
    var n := Names(map[1 := a, 2 := b, 3 := c], map["x" := 1, "y" := 2]);
    var names := map[1 := "", 2 := "", 3 := "z"];
    hide RenameAll;
    RenameNothing(n, names);
    RenameNext(n, names, [], 1);
    RenameNext(n, names, [1], 3);
    RenameNext(n, names, [1, 3], 2);
    RenameNext(n, names, [1], 2);
    assert [] + [1] == [1] && [1] + [3] == [1, 3] && [1, 3] + [2] == [1, 3, 2];
    assert [1, 2, 3][..2] == [1, 2] == [1] + [2];
    RefusalIsFinal(n, names, [1, 2, 3], 2);
  }

  // --- the whole update

  /** A pool can take the empty name only if the same incremental removes it. */
  lemma EmptyNameIsRemoved(m: OSDMap, inc: Incremental, order: seq<I64>, id: I64)
    requires IsOrder(order, inc.newPoolNames.Keys) && Succeeds(m, inc, order)
    requires id in inc.newPoolNames && inc.newPoolNames[id] == ""
    ensures id in inc.oldPools
  {
    hide OsdsValid;
    RenamesKnown(PoolsBefore(m, inc), inc.newPoolNames, order);
    assert id in order;
    hide AppliedPools;
    NamedAfter(m, inc, id);
  }

  lemma NamedAfter(m: OSDMap, inc: Incremental, id: I64)
    requires id in PoolsBefore(m, inc).pools && id in inc.newPoolNames
    ensures id !in inc.oldPools ==> id in AppliedPools(m, inc) && AppliedPools(m, inc)[id].name == inc.newPoolNames[id]
  {
  }

  lemma {:induction false} RenamesKnown(n: Names, names: map<I64, string>, order: seq<I64>)
    requires (forall x :: x in order ==> x in names) && RenameAll(n, names, order).Some?
    ensures RenameAll(n, names, order).value.pools.Keys == n.pools.Keys && forall x :: x in order ==> x in n.pools
  {
    if order == [] {
    } else {
      RenamesKnown(n, names, order[..|order| - 1]);
    }
  }

  /** What else an update needs than acceptable renames. */
  ghost predicate OtherwiseValid(m: OSDMap, inc: Incremental) {
    && (inc.crushData != [] ==> m.crushVersion + 1 < TWO_32)
    && OsdsValid(m, inc)
    && (forall id :: id in AppliedPools(m, inc) ==> AppliedPools(m, inc)[id].name != "")
  }

  /** An update succeeds in every order, or in some, exactly when the rest of it is valid and its renames
      are safe, or possible. */
  lemma UpdateSucceedsIff(m: OSDMap, inc: Incremental)
    requires NamesExact(m) && Nameless(inc)
    ensures (forall order :: IsOrder(order, inc.newPoolNames.Keys) ==> Succeeds(m, inc, order))
         <==> OtherwiseValid(m, inc) && RenamesSafe(PoolsBefore(m, inc), inc.newPoolNames)
    ensures (exists order :: IsOrder(order, inc.newPoolNames.Keys) && Succeeds(m, inc, order))
         <==> OtherwiseValid(m, inc) && RenamesPossible(PoolsBefore(m, inc), inc.newPoolNames)
  {
    PoolsBeforeNearly(m, inc);
    assert "" !in m.nameToId;
    hide OsdsValid, AppliedPools, RenameAll, RenamesSafe, RenamesPossible, NamesExact, Nameless;
    EveryOrderSucceedsIffSafe(PoolsBefore(m, inc), inc.newPoolNames);
    SomeOrderSucceedsIff(PoolsBefore(m, inc), inc.newPoolNames);
    var order := OrderExists(inc.newPoolNames.Keys, []);
  }
}
