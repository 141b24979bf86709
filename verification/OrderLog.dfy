/** Order status changes and the status log that records them. */
module OrderLog {
  const PENDING := "pending"
  const PAID := "paid"
  const DELIVERING := "delivering"
  const REFUNDING := "refunding"
  const REFUNDED := "refunded"

  datatype Entry = Entry(order: int, from: string, to: string)

  datatype Refund = Refund(order: int, status: string)

  /** The three tables; of an order only its status matters here. */
  datatype Tables = Tables(orders: map<int, string>, log: seq<Entry>, refunds: map<int, Refund>)
  {
    /** The status change that UPDATE and the log entry make together. */
    function Move(id: int, to: string, f: Faults): Tables
      requires id in orders
    {
      if f.update then this
      else Tables(orders[id := to], if f.log then log else log + [Entry(id, orders[id], to)], refunds)
    }
  }

  /** Which statements of one call fail. */
  datatype Faults = Faults(read: bool, insert: bool, update: bool, log: bool)

  datatype Call =
    | Create(id: int, status: string)
    | Update(id: int, to: string)
    | Pay(id: int)
    | OpenRefund(refund: int, id: int)
    | Audit(refund: int, approve: bool)

  function UpdateOf(t: Tables, id: int, to: string, f: Faults): Tables {
    if f.read || id !in t.orders || t.orders[id] == to then t else t.Move(id, to, f)
  }

  /** What a call does to the tables. Ids of inserted rows are new. */
  function Apply(t: Tables, c: Call, f: Faults): Tables {
    match c
    case Create(id, status) =>
      var to := if status == "" then PENDING else status;
      if f.insert || id in t.orders then t
      else Tables(t.orders[id := to], if f.log then t.log else t.log + [Entry(id, "", to)], t.refunds)
    case Update(id, to) => UpdateOf(t, id, to, f)
    case Pay(id) =>
      if f.read || id !in t.orders || t.orders[id] in {PAID, DELIVERING} then t else t.Move(id, PAID, f)
    case OpenRefund(refund, id) =>
      if f.insert || refund in t.refunds then t
      else UpdateOf(t.(refunds := t.refunds[refund := Refund(id, "pending")]), id, REFUNDING, f)
    case Audit(refund, approve) =>
      if f.insert || refund !in t.refunds then t
      else
        var r := t.refunds[refund].(status := if approve then "completed" else "rejected");
        UpdateOf(t.(refunds := t.refunds[refund := r]), r.order, if approve then REFUNDED else PAID, f)
  }

  class Store {
    var orders: map<int, string>
    var log: seq<Entry>
    var refunds: map<int, Refund>
    var nextId: nat

    function View(): Tables
      reads this
    {
      Tables(orders, log, refunds)
    }

    ghost predicate Valid()
      reads this
    {
      (forall id :: id in orders ==> id < nextId) && (forall id :: id in refunds ==> id < nextId)
    }

    constructor ()
      ensures Valid() && View() == Tables(map[], [], map[])
    {
      orders, log, refunds, nextId := map[], [], map[], 0;
    }

    method LogOrderStatus(id: int, from: string, to: string, f: Faults) returns (ok: bool)
      modifies this`log
      ensures ok == !f.log && log == if ok then old(log) + [Entry(id, from, to)] else old(log)
    {
      ok := !f.log;
      if ok {
        log := log + [Entry(id, from, to)];
      }
    }

    method CreateOrder(status: string, f: Faults) returns (id: int, ok: bool)
      requires Valid()
      modifies this
      ensures Valid() && id !in old(orders) && View() == Apply(old(View()), Create(id, status), f)
      ensures ok == !f.insert
    {
      var to := if status == "" then PENDING else status;
      id := nextId;
      if f.insert {
        return id, false;
      }
      orders := orders[id := to];
      nextId := nextId + 1;
      var _ := LogOrderStatus(id, "", to, f);
      ok := true;
    }

    method UpdateOrderStatus(id: int, to: string, f: Faults) returns (ok: bool)
      requires Valid()
      modifies this
      ensures Valid() && View() == Apply(old(View()), Update(id, to), f)
      ensures nextId == old(nextId)
      ensures ok <==> !f.read && id in old(orders) && (old(orders)[id] == to || !(f.update || f.log))
      ensures ok ==> orders[id] == to
    {
      if f.read || id !in orders {
        return false;
      }
      var cur := orders[id];
      if cur == to {
        return true;
      }
      if f.update {
        return false;
      }
      orders := orders[id := to];
      ok := LogOrderStatus(id, cur, to, f);
    }

    method PayOrder(id: int, f: Faults) returns (ok: bool)
      requires Valid()
      modifies this
      ensures Valid() && View() == Apply(old(View()), Pay(id), f)
      ensures ok <==> !f.read && id in old(orders) && (old(orders)[id] in {PAID, DELIVERING} || !(f.update || f.log))
      ensures ok ==> orders[id] in {PAID, DELIVERING}
    {
      if f.read || id !in orders {
        return false;
      }
      var cur := orders[id];
      if cur == PAID || cur == DELIVERING {
        return true;
      }
      if f.update {
        return false;
      }
      orders := orders[id := PAID];
      ok := LogOrderStatus(id, cur, PAID, f);
    }

    method CreateRefund(id: int, f: Faults) returns (refund: int, ok: bool)
      requires Valid()
      modifies this
      ensures Valid() && refund !in old(refunds) && View() == Apply(old(View()), OpenRefund(refund, id), f)
      ensures ok == !f.insert
    {
      refund := nextId;
      if f.insert {
        return refund, false;
      }
      refunds := refunds[refund := Refund(id, "pending")];
      nextId := nextId + 1;
      var _ := UpdateOrderStatus(id, REFUNDING, f);
      ok := true;
    }

    method AuditRefund(refund: int, approve: bool, f: Faults) returns (ok: bool)
      requires Valid()
      modifies this
      ensures Valid() && View() == Apply(old(View()), Audit(refund, approve), f)
      ensures ok <==> !f.insert && refund in old(refunds)
      ensures ok ==> refunds[refund].status == if approve then "completed" else "rejected"
      ensures ok && refunds[refund].order in old(orders) && !f.read && !f.update ==>
                orders[refunds[refund].order] == if approve then "refunded" else "paid"
    {
      if f.insert || refund !in refunds {
        return false;
      }
      var status := if approve then "completed" else "rejected";
      var r := refunds[refund].(status := status);
      refunds := refunds[refund := r];
      if approve {
        var _ := UpdateOrderStatus(r.order, REFUNDED, f);
      } else {
        var _ := UpdateOrderStatus(r.order, PAID, f);
      }
      ok := true;
    }
  }

  // What each call does.

  lemma CreateDoes(t: Tables, id: int, status: string, f: Faults)
    requires id !in t.orders
    ensures var u := Apply(t, Create(id, status), f);
            var to := if status == "" then "pending" else status;
            u.refunds == t.refunds
            && u.orders == (if f.insert then t.orders else t.orders[id := to])
            && u.log == (if f.insert || f.log then t.log else t.log + [Entry(id, "", to)])
  {
  }

  /** A status is set and logged, unless it stays as it is or a statement fails. */
  lemma UpdateDoes(t: Tables, id: int, to: string, f: Faults)
    ensures var u := Apply(t, Update(id, to), f);
            var changes := id in t.orders && t.orders[id] != to && !f.read && !f.update;
            u.refunds == t.refunds
            && u.orders == (if changes then t.orders[id := to] else t.orders)
            && u.log == if changes && !f.log then t.log + [Entry(id, t.orders[id], to)] else t.log
  {
  }

  lemma PayDoes(t: Tables, id: int, f: Faults)
    ensures var u := Apply(t, Pay(id), f);
            var changes := id in t.orders && t.orders[id] != "paid" && t.orders[id] != "delivering"
                           && !f.read && !f.update;
            u.refunds == t.refunds
            && u.orders == (if changes then t.orders[id := "paid"] else t.orders)
            && u.log == if changes && !f.log then t.log + [Entry(id, t.orders[id], "paid")] else t.log
  {
  }

  /** The refund is pending, and the order then changes as by an update to "refunding". */
  lemma OpenRefundDoes(t: Tables, refund: int, id: int, f: Faults)
    requires refund !in t.refunds
    ensures var u, v := Apply(t, OpenRefund(refund, id), f), Apply(t, Update(id, "refunding"), f);
            u.refunds == (if f.insert then t.refunds else t.refunds[refund := Refund(id, "pending")])
            && u.orders == (if f.insert then t.orders else v.orders)
            && u.log == if f.insert then t.log else v.log
  {
  }

  /** An approved refund is completed and its order refunded, a rejected one leaves its order paid. */
  lemma AuditDecides(t: Tables, refund: int, approve: bool, f: Faults)
    requires refund in t.refunds
    ensures var r := t.refunds[refund];
            var u := Apply(t, Audit(refund, approve), f);
            var v := Apply(t, Update(r.order, if approve then "refunded" else "paid"), f);
            u.refunds == (if f.insert then t.refunds
                          else t.refunds[refund := Refund(r.order, if approve then "completed" else "rejected")])
            && u.orders == (if f.insert then t.orders else v.orders)
            && u.log == if f.insert then t.log else v.log
  {
  }

  lemma NoRefundNoAudit(t: Tables, refund: int, approve: bool, f: Faults)
    requires refund !in t.refunds
    ensures Apply(t, Audit(refund, approve), f) == t
  {
  }

  // The log as a path.

  /** The entries of one order, oldest first. */
  function LogOf(log: seq<Entry>, id: int): seq<Entry> {
    if log == [] then []
    else
      var rest := LogOf(log[..|log| - 1], id);
      if log[|log| - 1].order == id then rest + [log[|log| - 1]] else rest
  }

  /** A path of real status changes from "" to the final status. */
  predicate IsPath(s: seq<Entry>, final: string) {
    && s != [] && s[0].from == "" && s[|s| - 1].to == final
    && (forall i :: 0 <= i < |s| ==> s[i].from != s[i].to)
    && forall i :: 0 < i < |s| ==> s[i].from == s[i - 1].to
  }

  ghost predicate Consistent(t: Tables) {
    && (forall id :: id in t.orders ==> IsPath(LogOf(t.log, id), t.orders[id]))
    && forall id :: id !in t.orders ==> LogOf(t.log, id) == []
  }

  lemma LogOfSnoc(log: seq<Entry>, e: Entry, id: int)
    ensures LogOf(log + [e], id) == if e.order == id then LogOf(log, id) + [e] else LogOf(log, id)
  {
    assert (log + [e])[..|log|] == log;
  }

  lemma PathNotEmpty(s: seq<Entry>, final: string)
    ensures IsPath(s, final) ==> s != []
  {
  }

  lemma PathSnoc(s: seq<Entry>, e: Entry)
    requires if s == [] then e.from == "" else IsPath(s, e.from)
    requires e.from != e.to
    ensures IsPath(s + [e], e.to)
  {
  }

  /** One logged change of one order's status. */
  lemma ChangeKeepsConsistent(t: Tables, u: Tables, id: int, to: string)
    requires Consistent(t) && u.orders == t.orders[id := to]
    requires u.log == t.log + [Entry(id, if id in t.orders then t.orders[id] else "", to)]
    requires to != if id in t.orders then t.orders[id] else ""
    ensures Consistent(u)
  {
    hide IsPath, LogOf;
    var e := u.log[|t.log|];
    assert if id in t.orders then IsPath(LogOf(t.log, id), e.from) else LogOf(t.log, id) == [] && e.from == "";
    assert IsPath(LogOf(t.log, id) + [e], to) by {
      PathNotEmpty(LogOf(t.log, id), e.from);
      PathSnoc(LogOf(t.log, id), e);
    }
    forall other
      ensures other in u.orders ==> IsPath(LogOf(u.log, other), u.orders[other])
      ensures other !in u.orders ==> LogOf(u.log, other) == []
    {
      LogOfSnoc(t.log, e, other);
      assert other in t.orders ==> IsPath(LogOf(t.log, other), t.orders[other]);
    }
  }

  lemma UpdateKeepsConsistent(t: Tables, id: int, to: string, f: Faults)
    requires Consistent(t) && !f.log
    ensures Consistent(UpdateOf(t, id, to, f))
  {
    var u := UpdateOf(t, id, to, f);
    if u != t {
      ChangeKeepsConsistent(t, u, id, to);
    }
  }

  lemma StepKeepsConsistent(t: Tables, c: Call, f: Faults)
    requires Consistent(t) && !f.log
    ensures Consistent(Apply(t, c, f))
  {
    var u := Apply(t, c, f);
    match c
    case Create(id, status) => if u != t { ChangeKeepsConsistent(t, u, id, u.orders[id]); }
    case Update(id, to) => UpdateKeepsConsistent(t, id, to, f);
    case Pay(id) => if u != t { ChangeKeepsConsistent(t, u, id, PAID); }
    case OpenRefund(refund, id) =>
      if u != t {
        UpdateKeepsConsistent(t.(refunds := t.refunds[refund := Refund(id, "pending")]), id, REFUNDING, f);
      }
    case Audit(refund, approve) =>
      if refund in t.refunds {
        var r := t.refunds[refund].(status := if approve then "completed" else "rejected");
        UpdateKeepsConsistent(t.(refunds := t.refunds[refund := r]), r.order, if approve then REFUNDED else PAID, f);
      }
  }

  const EMPTY := Tables(map[], [], map[])

  function Run(t: Tables, calls: seq<(Call, Faults)>): Tables {
    if calls == [] then t
    else Apply(Run(t, calls[..|calls| - 1]), calls[|calls| - 1].0, calls[|calls| - 1].1)
  }

  /** No log insert of the run fails. */
  predicate NothingLost(calls: seq<(Call, Faults)>) {
    forall i :: 0 <= i < |calls| ==> !calls[i].1.log
  }

  /** In every run in which no log insert fails, each order's log is a path to its status. */
  lemma {:induction false} LogsArePaths(calls: seq<(Call, Faults)>)
    requires NothingLost(calls)
    ensures Consistent(Run(EMPTY, calls))
  {
    hide Apply, Consistent;
    if calls == [] {
      EmptyConsistent();
    } else {
      LogsArePaths(calls[..|calls| - 1]);
      StepKeepsConsistent(Run(EMPTY, calls[..|calls| - 1]), calls[|calls| - 1].0, calls[|calls| - 1].1);
    }
  }

  lemma EmptyConsistent()
    ensures Consistent(EMPTY)
  {
  }

  /** What a path is, entry by entry. */
  lemma PathIs(s: seq<Entry>, final: string)
    ensures IsPath(s, final) <==>
            |s| > 0 && s[0].from == "" && s[|s| - 1].to == final
            && forall i :: 0 <= i < |s| ==> s[i].from != s[i].to && (i > 0 ==> s[i - 1].to == s[i].from)
  {
  }

  /** The order a call is about; for an audit the refund row tells. */
  function Subject(t: Tables, c: Call): int {
    match c
    case Audit(refund, _) => if refund in t.refunds then t.refunds[refund].order else -1
    case _ => c.id
  }

  /** A call leaves the status and the log of every other order alone, whatever fails. */
  lemma OthersUntouched(t: Tables, c: Call, f: Faults, other: int)
    requires other != Subject(t, c)
    ensures LogOf(Apply(t, c, f).log, other) == LogOf(t.log, other)
    ensures other in Apply(t, c, f).orders <==> other in t.orders
    ensures other in t.orders ==> Apply(t, c, f).orders[other] == t.orders[other]
  {
    var u := Apply(t, c, f);
    if u.log != t.log {
      LogOfSnoc(t.log, u.log[|t.log|], other);
    }
  }

  /** When only the log insert fails, the log still leads to the status exactly when nothing was changed. */
  lemma LostEntryBreaksPath(t: Tables, c: Call, f: Faults)
    requires Consistent(t) && f.log
    ensures Consistent(Apply(t, c, f)) <==> Apply(t, c, f).orders == t.orders
  {
    var u := Apply(t, c, f);
    assert u.log == t.log;
    if u.orders != t.orders {
      var id := Subject(t, c);
      assert u.orders == t.orders[id := u.orders[id]];
      assert id in t.orders ==> IsPath(LogOf(t.log, id), t.orders[id]);
      assert !IsPath(LogOf(u.log, id), u.orders[id]);
    }
  }

  // After a lost entry.

  /** The order's log does not lead to its status, and no later entry can be its first. */
  ghost predicate Broken(t: Tables, id: int) {
    id in t.orders && !IsPath(LogOf(t.log, id), t.orders[id]) && (LogOf(t.log, id) == [] ==> t.orders[id] != "")
  }

  lemma PathSnocIff(s: seq<Entry>, e: Entry)
    requires e.from != e.to
    ensures IsPath(s + [e], e.to) <==> if s == [] then e.from == "" else IsPath(s, e.from)
  {
    var p := s + [e];
    if IsPath(p, e.to) && s != [] {
      assert forall i :: 0 <= i < |s| ==> s[i] == p[i];
      assert p[|s|].from == p[|s| - 1].to;
    }
  }

  /** What a call that loses nothing does to one order's status and log. */
  lemma StatusAndLog(t: Tables, c: Call, f: Faults, id: int)
    requires id in t.orders && !f.log
    ensures var u := Apply(t, c, f);
            id in u.orders &&
            ((u.orders[id] == t.orders[id] && LogOf(u.log, id) == LogOf(t.log, id)) ||
             (u.orders[id] != t.orders[id]
              && LogOf(u.log, id) == LogOf(t.log, id) + [Entry(id, t.orders[id], u.orders[id])]))
  {
    var u := Apply(t, c, f);
    hide LogOf;
    if u.log != t.log {
      LogOfSnoc(t.log, u.log[|t.log|], id);
    }
  }

  lemma StepStaysBroken(t: Tables, c: Call, f: Faults, id: int)
    requires Broken(t, id) && !f.log
    ensures Broken(Apply(t, c, f), id)
  {
    hide IsPath, LogOf, Apply;
    StatusAndLog(t, c, f, id);
    var u := Apply(t, c, f);
    if u.orders[id] != t.orders[id] {
      PathSnocIff(LogOf(t.log, id), Entry(id, t.orders[id], u.orders[id]));
    }
  }

  lemma {:induction false} RunStaysBroken(t: Tables, calls: seq<(Call, Faults)>, id: int)
    requires Broken(t, id) && NothingLost(calls)
    ensures Broken(Run(t, calls), id)
  {
    hide Apply, Broken;
    if calls != [] {
      var n := |calls| - 1;
      RunStaysBroken(t, calls[..n], id);
      StepStaysBroken(Run(t, calls[..n]), calls[n].0, calls[n].1, id);
    }
  }

  /** A change whose entry is lost breaks the order's path, and it stays broken in every further run
      that loses no other entry. */
  lemma LostEntryBreaksForGood(t: Tables, c: Call, f: Faults, calls: seq<(Call, Faults)>)
    requires Consistent(t) && f.log && Apply(t, c, f).orders != t.orders && NothingLost(calls)
    ensures var u := Run(Apply(t, c, f), calls);
            var id := Subject(t, c);
            id in u.orders && !IsPath(LogOf(u.log, id), u.orders[id])
  {
    var u, id := Apply(t, c, f), Subject(t, c);
    assert u.log == t.log && u.orders == t.orders[id := u.orders[id]];
    assert id in t.orders ==> IsPath(LogOf(t.log, id), t.orders[id]);
    assert Broken(u, id);
    RunStaysBroken(u, calls, id);
  }

  /** A second lost entry can mend it: when the change back is lost too, the tables are as before. */
  lemma LosingBothWaysMends(t: Tables, id: int, to: string, f: Faults)
    requires id in t.orders && to != t.orders[id] && f == Faults(false, false, false, true)
    ensures var u := Apply(t, Update(id, to), f);
            (Consistent(t) ==> !Consistent(u)) && Apply(u, Update(id, t.orders[id]), f) == t
  {
    var u := Apply(t, Update(id, to), f);
    assert u.orders[id := t.orders[id]] == t.orders;
    if Consistent(t) { LostEntryBreaksPath(t, Update(id, to), f); }
  }
}
