/** The persisted table of `hanshin.js`: the best known expression for
    every integer (`set`, `get`) and the ledger of people who produced
    "33-4" (`addWinner`, `getWinner`, `getLatestWinner`).

    Every mutating call of the source rewrites the whole table to disk
    before returning; here a call simply returns the table after it. */
module HanshinStore {
  import opened Common
  import opened HanshinExpr

  /** One ledger record: how often, and when last (a timestamp supplied by
      the caller, in milliseconds). */
  datatype Winner = Winner(count: nat, updated: int)

  /** The table: value -> canonical expression, identity -> record. */
  datatype Db = Db(hash: map<int, string>, winner: map<string, Winner>)

  /** The table a fresh store starts from when nothing can be loaded. */
  const Initial: Db := Db(map[334 := "334"], map[])

  /** The table after a call and the value the call returned. */
  datatype SetResult = SetResult(db: Db, value: Option<int>)

  /** The evaluation step of `set`: the integer an expression denotes, or
      `None` when evaluation throws or is not an integer. */
  function Value(expr: string, eval: Evaluator): (v: Option<int>)
    ensures v.Some? <==> eval(expr).Integer?
    ensures v.Some? ==> eval(expr) == Integer(v.value)
  {
    match eval(expr)
    case Integer(n) => Some(n)
    case _ => None
  }

  /** `set(expr, force)`. An invalid expression or one without an integer
      value is refused. Otherwise, unless `force` is given, an existing
      entry for the value is replaced only by a strictly better expression.
      A refused call returns `None` and leaves the table as it was; an
      accepted one stores the expression under its value, touches nothing
      else, and returns the value. */
  function Set(db: Db, expr: string, force: bool, eval: Evaluator): (r: SetResult)
    ensures r.value.None? ==> r.db == db
    ensures r.value.Some? ==>
              && IsValid(expr, eval)
              && eval(expr) == Integer(r.value.value)
              && r.db == db.(hash := db.hash[r.value.value := expr])
    ensures r.value.Some? <==>
              && IsValid(expr, eval)
              && eval(expr).Integer?
              && (force || eval(expr).n !in db.hash || Compare(expr, db.hash[eval(expr).n]))
  {
    if !IsValid(expr, eval) then SetResult(db, None)
    else match Value(expr, eval)
      case None => SetResult(db, None)
      case Some(n) =>
        if !force && n in db.hash && !Compare(expr, db.hash[n]) then SetResult(db, None)
        else SetResult(db.(hash := db.hash[n := expr]), Some(n))
  }

  /** `get(n)`: the stored expression for `n`, if any. */
  function Get(db: Db, n: int): (e: Option<string>)
    ensures e.Some? <==> n in db.hash
    ensures e.Some? ==> e.value == db.hash[n]
  {
    if n in db.hash then Some(db.hash[n]) else None
  }

  /** The table invariant: every stored expression is valid and evaluates
      to the integer it is stored under. */
  ghost predicate Consistent(db: Db, eval: Evaluator) {
    forall n :: n in db.hash ==> IsValid(db.hash[n], eval) && eval(db.hash[n]) == Integer(n)
  }

  /** The initial table is consistent as long as the evaluator gives "334"
      its value. */
  lemma InitialConsistent(eval: Evaluator)
    requires eval("334") == Integer(334)
    ensures Consistent(Initial, eval)
  {
    assert Scan("334", 0) == Some(0);
    assert InCharset("334") by {
      forall i | 0 <= i < 3 ensures ExprChar("334"[i]) {
      }
    }
  }

  /** `set` keeps the table consistent, forced or not. */
  lemma {:induction false} SetPreservesConsistent(db: Db, expr: string, force: bool, eval: Evaluator)
    requires Consistent(db, eval)
    ensures Consistent(Set(db, expr, force, eval).db, eval)
  {
  }

  /** Without `force`, entries only ever improve: every value keeps an
      entry, and an entry that changes is replaced by a strictly better
      expression. */
  lemma {:induction false} SetOnlyImproves(db: Db, expr: string, eval: Evaluator)
    ensures var db' := Set(db, expr, false, eval).db;
            && db.hash.Keys <= db'.hash.Keys
            && forall n :: n in db.hash && db'.hash[n] != db.hash[n] ==> Compare(db'.hash[n], db.hash[n])
  {
  }

  /** Offering the same expression twice in a row changes nothing the
      second time: it cannot be strictly better than itself. */
  lemma {:induction false} SetIdempotent(db: Db, expr: string, eval: Evaluator)
    ensures var first := Set(db, expr, false, eval);
            Set(first.db, expr, false, eval) == SetResult(first.db, None)
  {
    var first := Set(db, expr, false, eval);
    if first.value.Some? {
      CompareIrreflexive(expr);
    }
  }

  /** A forced `set` of a valid expression with an integer value always
      succeeds, whatever was stored before. */
  lemma {:induction false} ForceAlwaysStores(db: Db, expr: string, n: int, eval: Evaluator)
    requires IsValid(expr, eval) && eval(expr) == Integer(n)
    ensures Set(db, expr, true, eval) == SetResult(db.(hash := db.hash[n := expr]), Some(n))
  {
  }

  /** After a successful `set`, `get` finds the new expression under its
      value and answers as before for every other value. */
  lemma {:induction false} GetAfterSet(db: Db, expr: string, force: bool, eval: Evaluator, m: int)
    requires Set(db, expr, force, eval).value.Some?
    ensures var r := Set(db, expr, force, eval);
            && Get(r.db, r.value.value) == Some(expr)
            && (m != r.value.value ==> Get(r.db, m) == Get(db, m))
  {
  }

  // ---------------------------------------------------------------------
  // Winner ledger
  // ---------------------------------------------------------------------

  /** The table after `addWinner` and the number it returned. */
  datatype AddResult = AddResult(db: Db, distinct: nat)

  /** `addWinner(id)` at time `now`: a new identity gets count 1, a known
      one has its count raised by one; either way its time becomes `now`.
      Returns how many identities the ledger holds. */
  function AddWinner(db: Db, id: string, now: int): (r: AddResult)
    ensures id in r.db.winner && r.db.winner[id].updated == now
    ensures r.db.winner[id].count == (if id in db.winner then db.winner[id].count + 1 else 1)
    ensures r.db.winner.Keys == db.winner.Keys + {id}
    ensures forall other :: other in db.winner && other != id ==> r.db.winner[other] == db.winner[other]
    ensures r.db.hash == db.hash
    ensures r.distinct == |r.db.winner|
  {
    var w := if id in db.winner then Winner(db.winner[id].count + 1, now) else Winner(1, now);
    var db' := db.(winner := db.winner[id := w]);
    AddResult(db', |db'.winner|)
  }

  /** `getWinner(id)`: the record of `id`, if any. */
  function GetWinner(db: Db, id: string): (w: Option<Winner>)
    ensures w.Some? <==> id in db.winner
    ensures w.Some? ==> w.value == db.winner[id]
  {
    if id in db.winner then Some(db.winner[id]) else None
  }

  /** Every ledger count is positive. */
  ghost predicate LedgerPositive(db: Db) {
    forall id :: id in db.winner ==> db.winner[id].count >= 1
  }

  /** `addWinner` keeps counts positive, and the returned number grows by
      one exactly when the identity is new. */
  lemma {:induction false} AddWinnerCounts(db: Db, id: string, now: int)
    requires LedgerPositive(db)
    ensures LedgerPositive(AddWinner(db, id, now).db)
    ensures AddWinner(db, id, now).distinct == |db.winner| + (if id in db.winner then 0 else 1)
  {
    var db' := AddWinner(db, id, now).db;
    if id in db.winner {
      assert db'.winner.Keys == db.winner.Keys;
    } else {
      assert db'.winner.Keys == db.winner.Keys + {id};
    }
  }

  // ---------------------------------------------------------------------
  // The ledger as written: `in` also sees inherited names
  // ---------------------------------------------------------------------

  /** The names a plain JavaScript object inherits from `Object.prototype`.
      The test `id in this.db.winner` is true for them even when the ledger
      holds no record under that name. */
  const PrototypeNames: set<string> := {
    "constructor", "__proto__", "toString", "toLocaleString", "valueOf",
    "hasOwnProperty", "isPrototypeOf", "propertyIsEnumerable",
    "__defineGetter__", "__defineSetter__", "__lookupGetter__", "__lookupSetter__"}

  /** What `this.db.winner[id]` denotes: an own record, an inherited member
      of `Object.prototype` (a function, or the prototype itself), or
      nothing, in which case `getWinner` returns `null`. */
  datatype Lookup = Record(w: Winner) | InheritedMember(name: string) | Absent

  /** `getWinner(id)` exactly as written: a name the ledger lacks but every
      object inherits is found, and the inherited member is returned. */
  function GetWinnerAsWritten(db: Db, id: string): (l: Lookup)
    ensures l.Record? <==> id in db.winner
    ensures l.Record? ==> l.w == db.winner[id]
    ensures l.InheritedMember? <==> id !in db.winner && id in PrototypeNames
    ensures l.Absent? <==> GetWinner(db, id).None? && id !in PrototypeNames
  {
    if id in db.winner then Record(db.winner[id])
    else if id in PrototypeNames then InheritedMember(id)
    else Absent
  }

  /** `addWinner(id)` exactly as written: for an inherited name the `in`
      test succeeds, so `count++` and the time are written onto the
      inherited member instead of a record, and the ledger keeps its
      identities. Everywhere else it is `AddWinner`. */
  function AddWinnerAsWritten(db: Db, id: string, now: int): (r: AddResult)
    ensures r.distinct == |r.db.winner| && r.db.hash == db.hash
    ensures id !in db.winner && id in PrototypeNames ==> r.db.winner == db.winner
    ensures id in db.winner || id !in PrototypeNames ==> r == AddWinner(db, id, now)
  {
    if id !in db.winner && id in PrototypeNames then AddResult(db, |db.winner|)
    else AddWinner(db, id, now)
  }

  /** A user named "constructor" reaching 33-4 for the first time: as
      written, no record is made and the returned number of identities
      does not grow, so `getWinner("constructor")` afterwards yields the
      inherited function instead of a record. The intended ledger records
      the user with count 1. */
  lemma ConstructorNotRecorded(db: Db, now: int)
    requires "constructor" !in db.winner
    ensures var r := AddWinnerAsWritten(db, "constructor", now);
            && r.db.winner == db.winner
            && r.distinct == |db.winner|
            && GetWinnerAsWritten(r.db, "constructor") == InheritedMember("constructor")
    ensures var r := AddWinner(db, "constructor", now);
            && r.db.winner["constructor"] == Winner(1, now)
            && r.distinct == |db.winner| + 1
            && GetWinner(r.db, "constructor") == Some(Winner(1, now))
  {
    var r := AddWinner(db, "constructor", now);
    assert r.db.winner.Keys == db.winner.Keys + {"constructor"};
  }

  /** `winner toString` asks for a user that never reached 33-4: as written
      the inherited `toString` function is found and reported as a record;
      the intended lookup reports no record. */
  lemma ToStringFound(db: Db)
    requires "toString" !in db.winner
    ensures GetWinnerAsWritten(db, "toString") == InheritedMember("toString")
    ensures GetWinner(db, "toString") == None
  {
  }

  /** The same identity three times, then another: the returned number of
      distinct identities stays 1 and then becomes 2, while the first
      identity's count reaches 3 with the latest time. */
  lemma {:induction false} LedgerScenario(db: Db, a: string, b: string, t1: int, t2: int, t3: int, t4: int)
    requires db.winner == map[]
    requires a != b
    ensures var r1 := AddWinner(db, a, t1);
            var r2 := AddWinner(r1.db, a, t2);
            var r3 := AddWinner(r2.db, a, t3);
            var r4 := AddWinner(r3.db, b, t4);
            && r1.distinct == 1 && r2.distinct == 1 && r3.distinct == 1
            && r3.db.winner[a] == Winner(3, t3)
            && r4.distinct == 2
            && r4.db.winner[a] == Winner(3, t3) && r4.db.winner[b] == Winner(1, t4)
  {
    var r1 := AddWinner(db, a, t1);
    var r2 := AddWinner(r1.db, a, t2);
    var r3 := AddWinner(r2.db, a, t3);
    assert r1.db.winner.Keys == {a};
    assert r2.db.winner.Keys == {a};
    assert r3.db.winner.Keys == {a};
    var r4 := AddWinner(r3.db, b, t4);
    assert r4.db.winner.Keys == {a, b};
  }

  /** `order` lists every identity of the ledger exactly once: the order
      in which `Object.keys` enumerates them. */
  predicate IsEnumeration(order: seq<string>, keys: set<string>) {
    && (forall i :: 0 <= i < |order| ==> order[i] in keys)
    && (forall k :: k in keys ==> k in order)
    && (forall i, j :: 0 <= i < j < |order| ==> order[i] != order[j])
  }

  /** `getLatestWinner()`, visiting identities in `order`: returns the
      number of identities and, when there is any, the one whose time is
      latest; of several with the latest time the first visited wins,
      because only a strictly later time replaces the current pick. */
  method GetLatestWinner(db: Db, order: seq<string>) returns (count: nat, id: Option<string>)
    requires IsEnumeration(order, db.winner.Keys)
    ensures count == |db.winner|
    ensures id.None? <==> |db.winner| == 0
    ensures id.Some? ==>
              && id.value in db.winner
              && (forall k :: k in db.winner ==> db.winner[k].updated <= db.winner[id.value].updated)
              && exists i :: 0 <= i < |order| && order[i] == id.value
                   && forall j :: 0 <= j < i ==> db.winner[order[j]].updated < db.winner[id.value].updated
  {
    count := |db.winner|;
    id := None;
    if count > 0 {
      var best: nat := 0;
      var i := 0;
      while i < |order|
        invariant 0 <= i <= |order|
        invariant id.None? <==> i == 0
        invariant id.Some? ==> best < i && id.value == order[best]
        invariant id.Some? ==> forall j :: 0 <= j < i ==> db.winner[order[j]].updated <= db.winner[order[best]].updated
        invariant id.Some? ==> forall j :: 0 <= j < best ==> db.winner[order[j]].updated < db.winner[order[best]].updated
      {
        var key := order[i];
        if id.None? {
          id, best := Some(key), i;
        } else if db.winner[order[best]].updated < db.winner[key].updated {
          id, best := Some(key), i;
        }
        i := i + 1;
      }
      var k0 :| k0 in db.winner;
      assert k0 in order;
      forall k | k in db.winner
        ensures db.winner[k].updated <= db.winner[id.value].updated
      {
        assert k in order;
        var j :| 0 <= j < |order| && order[j] == k;
      }
    }
  }
}
