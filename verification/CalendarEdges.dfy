/** The edges of a calendar mutation: what the calls on a mutation record, what an update emits from
    the record, and what that does to the stored edges (core/ent/mutation.go and
    core/ent/calendar_update.go). */
module CalendarEdges {

  import opened Options

  // ---------------------------------------------------------------- the record of a to-many edge

  /** Maps used as sets; None stands for a nil map. */
  datatype Edge = Edge(added: Option<set<string>>, removed: Option<set<string>>, cleared: bool) {
    function Added(): set<string> { if added.Some? then added.value else {} }
    function Removed(): set<string> { if removed.Some? then removed.value else {} }
  }

  datatype EdgeCall = Add(ids: seq<string>) | Remove(ids: seq<string>) | Clear | Reset

  const UNTOUCHED := Edge(None, None, false)

  function ToSet(ids: seq<string>): set<string> {
    set id | id in ids
  }

  /** One call on the record. */
  function Record(e: Edge, call: EdgeCall): Edge {
    match call
    case Add(ids) => e.(added := Some(e.Added() + ToSet(ids)))
    case Remove(ids) =>
      Edge(if e.added.None? then None else Some(e.added.value - ToSet(ids)), Some(e.Removed() + ToSet(ids)), e.cleared)
    case Clear => e.(cleared := true)
    case Reset => UNTOUCHED
  }

  /** The record after a whole history of calls. */
  function RecordAll(calls: seq<EdgeCall>): Edge {
    if calls == [] then UNTOUCHED else Record(RecordAll(calls[..|calls| - 1]), calls[|calls| - 1])
  }

  lemma RecordLast(calls: seq<EdgeCall>, call: EdgeCall)
    ensures RecordAll(calls + [call]) == Record(RecordAll(calls), call)
  {
    assert (calls + [call])[..|calls|] == calls;
  }

  // ---------------------------------------------------------------- the reference: the calls themselves

  /** Index behind the last Reset. */
  function AfterReset(calls: seq<EdgeCall>): (k: nat)
    ensures k <= |calls|
    ensures forall i :: k <= i < |calls| ==> calls[i] != Reset
    ensures k > 0 ==> calls[k - 1] == Reset
  {
    if calls == [] then 0
    else if calls[|calls| - 1] == Reset then |calls|
    else AfterReset(calls[..|calls| - 1])
  }

  /** Adding and removing ids in the order of the calls. */
  function Perform(calls: seq<EdgeCall>, ids: set<string>): set<string> {
    if calls == [] then ids else
      match calls[0]
      case Add(more) => Perform(calls[1..], ids + ToSet(more))
      case Remove(less) => Perform(calls[1..], ids - ToSet(less))
      case _ => Perform(calls[1..], ids)
  }

  /** The calls since the last Reset, performed on the stored ids; on none if Clear is among them. */
  function Replay(calls: seq<EdgeCall>, stored: set<string>): set<string> {
    var live := calls[AfterReset(calls)..];
    Perform(live, if Clear in live then {} else stored)
  }

  /** The same with Clear taking effect where it was called. */
  function Sequential(calls: seq<EdgeCall>, stored: set<string>): set<string> {
    if calls == [] then stored else
      match calls[0]
      case Add(more) => Sequential(calls[1..], stored + ToSet(more))
      case Remove(less) => Sequential(calls[1..], stored - ToSet(less))
      case Clear => Sequential(calls[1..], {})
      case Reset => Sequential(calls[1..], stored)
  }

  // ---------------------------------------------------------------- what an update emits

  datatype EdgeName = AccountEdge | EventsEdge | TasksEdge

  /** An edge specification: all edges of that name, or those to the listed nodes. */
  datatype EdgeSpec = EdgeSpec(edge: EdgeName, nodes: seq<string>)

  datatype UpdateSpec = UpdateSpec(clear: seq<EdgeSpec>, add: seq<EdgeSpec>)

  /** The ids stored for one calendar, edge by edge. */
  datatype Stored = Stored(account: set<string>, events: set<string>, tasks: set<string>) {
    function Get(edge: EdgeName): set<string> {
      match edge
      case AccountEdge => account
      case EventsEdge => events
      case TasksEdge => tasks
    }

    function Put(edge: EdgeName, ids: set<string>): Stored {
      match edge
      case AccountEdge => this.(account := ids)
      case EventsEdge => this.(events := ids)
      case TasksEdge => this.(tasks := ids)
    }
  }

  function ClearEdges(s: Stored, specs: seq<EdgeSpec>): Stored
    decreases |specs|
  {
    if specs == [] then s else
      var spec := specs[0];
      ClearEdges(s.Put(spec.edge, if spec.nodes == [] then {} else s.Get(spec.edge) - ToSet(spec.nodes)), specs[1..])
  }

  /** The account edge is unique: a new target takes the place of the old one. */
  function AddEdges(s: Stored, specs: seq<EdgeSpec>): Stored
    decreases |specs|
  {
    if specs == [] then s else
      var spec := specs[0];
      var kept := if spec.edge == AccountEdge then {} else s.Get(spec.edge);
      AddEdges(s.Put(spec.edge, ToSet(spec.nodes) + kept), specs[1..])
  }

  /** An update clears edges first and adds edges then. */
  function Update(s: Stored, spec: UpdateSpec): Stored {
    AddEdges(ClearEdges(s, spec.clear), spec.add)
  }

  // ---------------------------------------------------------------- the mutation objects

  /** The fields behind one to-many edge. */
  class EdgeRecord {
    var added: Option<set<string>>
    var removed: Option<set<string>>
    var cleared: bool
    /** All calls since the mutation was made. */
    ghost var calls: seq<EdgeCall>

    function View(): Edge
      reads this
    {
      Edge(added, removed, cleared)
    }

    ghost predicate Valid()
      reads this
    {
      View() == RecordAll(calls)
    }

    constructor ()
      ensures Valid() && calls == []
    {
      added, removed, cleared := None, None, false;
      calls := [];
    }

    ghost method Called(call: EdgeCall)
      requires View() == Record(RecordAll(calls), call)
      modifies this`calls
      ensures Valid() && calls == old(calls) + [call]
    {
      RecordLast(calls, call);
      calls := calls + [call];
    }

    method AddIDs(ids: seq<string>)
      requires Valid()
      modifies this
      ensures Valid() && calls == old(calls) + [Add(ids)]
    {
      ghost var before := View();
      if added == None {
        added := Some({});
      }
      for i := 0 to |ids|
        invariant added.Some? && added.value == before.Added() + ToSet(ids[..i])
        invariant removed == before.removed && cleared == before.cleared && calls == old(calls)
      {
        added := Some(added.value + {ids[i]});
      }
      assert ids[..|ids|] == ids;
      Called(Add(ids));
    }

    method RemoveIDs(ids: seq<string>)
      requires Valid()
      modifies this
      ensures Valid() && calls == old(calls) + [Remove(ids)]
    {
      ghost var before := View();
      if removed == None {
        removed := Some({});
      }
      for i := 0 to |ids|
        invariant added.Some? == before.added.Some?
        invariant added.Some? ==> added.value == before.added.value - ToSet(ids[..i])
        invariant removed.Some? && removed.value == before.Removed() + ToSet(ids[..i])
        invariant cleared == before.cleared && calls == old(calls)
      {
        if added != None {
          added := Some(added.value - {ids[i]});
        }
        removed := Some(removed.value + {ids[i]});
      }
      assert ids[..|ids|] == ids;
      Called(Remove(ids));
    }

    method ClearAll()
      requires Valid()
      modifies this
      ensures Valid() && calls == old(calls) + [Clear]
    {
      cleared := true;
      Called(Clear);
    }

    method ResetAll()
      requires Valid()
      modifies this
      ensures Valid() && calls == old(calls) + [Reset]
    {
      added, cleared, removed := None, false, None;
      Called(Reset);
    }

    /** The part of sqlSave for this edge: clear everything, or the removed ids; then the added ids. */
    method Emit(edge: EdgeName, spec: UpdateSpec)
      returns (r: UpdateSpec, ghost lost: seq<string>, ghost gained: seq<string>)
      ensures ToSet(lost) == View().Removed() && ToSet(gained) == View().Added()
      ensures r == Emitted(edge, cleared, lost, gained, spec)
    {
      var gone := Enumerate(View().Removed());
      var nodes := Enumerate(View().Added());
      r, lost, gained := spec, gone, nodes;
      if cleared {
        r := r.(clear := r.clear + [EdgeSpec(edge, [])]);
      }
      if |gone| > 0 && !cleared {
        r := r.(clear := r.clear + [EdgeSpec(edge, gone)]);
      }
      if |nodes| > 0 {
        r := r.(add := r.add + [EdgeSpec(edge, nodes)]);
      }
    }
  }

  /** What one edge appends to a specification. */
  function Emitted(edge: EdgeName, cleared: bool, lost: seq<string>, gained: seq<string>,
                   spec: UpdateSpec): UpdateSpec
  {
    UpdateSpec(
      if cleared then spec.clear + [EdgeSpec(edge, [])]
      else if lost == [] then spec.clear
      else spec.clear + [EdgeSpec(edge, lost)],
      if gained == [] then spec.add else spec.add + [EdgeSpec(edge, gained)])
  }

  lemma ToSetAppend(ids: seq<string>, id: string)
    ensures ToSet(ids + [id]) == ToSet(ids) + {id}
  {
    assert forall x :: x in ids + [id] <==> x in ids || x == id;
  }

  /** Ranging over a map used as a set: every key once, in any order. */
  method Enumerate(ids: set<string>) returns (list: seq<string>)
    ensures ToSet(list) == ids && |list| == |ids|
  {
    list := [];
    var left := ids;
    while left != {}
      invariant left <= ids && ToSet(list) == ids - left && |list| + |left| == |ids|
      decreases left
    {
      var id :| id in left;
      ToSetAppend(list, id);
      list := list + [id];
      left := left - {id};
    }
  }

  // ---------------------------------------------------------------- the record against the calls

  /** Removing and adding once is the same as performing all calls. */
  lemma {:induction false} RecordPerforms(calls: seq<EdgeCall>, stored: set<string>)
    requires Reset !in calls
    ensures var e := RecordAll(calls);
            && Perform(calls, stored) == stored - e.Removed() + e.Added()
            && (e.cleared <==> Clear in calls)
  {
    if calls != [] {
      var front, last := calls[..|calls| - 1], calls[|calls| - 1];
      assert calls == front + [last];
      RecordPerforms(front, stored);
      PerformAppend(front, last, stored);
    }
  }

  lemma {:induction false} PerformAppend(calls: seq<EdgeCall>, last: EdgeCall, ids: set<string>)
    ensures Perform(calls + [last], ids) == Perform([last], Perform(calls, ids))
    decreases |calls|
  {
    if calls == [] {
      assert [] + [last] == [last];
    } else {
      assert (calls + [last])[1..] == calls[1..] + [last];
      match calls[0]
      case Add(more) => PerformAppend(calls[1..], last, ids + ToSet(more));
      case Remove(less) => PerformAppend(calls[1..], last, ids - ToSet(less));
      case _ => PerformAppend(calls[1..], last, ids);
    }
  }

  /** A Reset forgets everything before it. */
  lemma {:induction false} RecordSinceReset(calls: seq<EdgeCall>)
    ensures RecordAll(calls) == RecordAll(calls[AfterReset(calls)..])
    ensures Reset !in calls[AfterReset(calls)..]
  {
    var k := AfterReset(calls);
    if k < |calls| {
      var front := calls[..|calls| - 1];
      RecordSinceReset(front);
      assert calls[k..][..|calls[k..]| - 1] == front[k..];
    }
  }

  /** What one to-many edge holds after an update with its part of the specification. */
  function Net(e: Edge, stored: set<string>): set<string> {
    (if e.cleared then {} else stored - e.Removed()) + e.Added()
  }

  /** The compact record stands for the whole history of calls. */
  lemma RecordReplays(calls: seq<EdgeCall>, stored: set<string>)
    ensures Net(RecordAll(calls), stored) == Replay(calls, stored)
  {
    var live := calls[AfterReset(calls)..];
    RecordSinceReset(calls);
    RecordPerforms(live, stored);
    RecordPerforms(live, {});
  }

  // ---------------------------------------------------------------- Clear out of order

  lemma {:induction false} PerformConcat(a: seq<EdgeCall>, b: seq<EdgeCall>, ids: set<string>)
    ensures Perform(a + b, ids) == Perform(b, Perform(a, ids))
    decreases |a|
  {
    if a == [] {
      assert a + b == b;
    } else {
      assert (a + b)[1..] == a[1..] + b;
      match a[0]
      case Add(more) => PerformConcat(a[1..], b, ids + ToSet(more));
      case Remove(less) => PerformConcat(a[1..], b, ids - ToSet(less));
      case _ => PerformConcat(a[1..], b, ids);
    }
  }

  lemma {:induction false} SequentialPerforms(calls: seq<EdgeCall>, ids: set<string>)
    requires Clear !in calls
    ensures Sequential(calls, ids) == Perform(calls, ids)
    decreases |calls|
  {
    if calls != [] {
      match calls[0]
      case Add(more) => SequentialPerforms(calls[1..], ids + ToSet(more));
      case Remove(less) => SequentialPerforms(calls[1..], ids - ToSet(less));
      case Reset => SequentialPerforms(calls[1..], ids);
    }
  }

  lemma {:induction false} SequentialClears(before: seq<EdgeCall>, after: seq<EdgeCall>, ids: set<string>)
    ensures Sequential(before + [Clear] + after, ids) == Sequential(after, {})
    decreases |before|
  {
    var calls := before + [Clear] + after;
    if before == [] {
      assert calls[1..] == after;
    } else {
      assert calls[1..] == before[1..] + [Clear] + after;
      match before[0]
      case Add(more) => SequentialClears(before[1..], after, ids + ToSet(more));
      case Remove(less) => SequentialClears(before[1..], after, ids - ToSet(less));
      case Clear => SequentialClears(before[1..], after, {});
      case Reset => SequentialClears(before[1..], after, ids);
    }
  }

  lemma {:induction false} NoReset(calls: seq<EdgeCall>)
    requires Reset !in calls
    ensures AfterReset(calls) == 0
  {
    if calls != [] {
      NoReset(calls[..|calls| - 1]);
    }
  }

  /** The record does not know when Clear was called: it acts as if called first. That is the same
      as taking effect in order exactly if every id pending at the last Clear is added or removed
      again afterwards. */
  lemma ClearOutOfOrder(before: seq<EdgeCall>, after: seq<EdgeCall>, stored: set<string>)
    requires Reset !in before && Reset !in after && Clear !in after
    ensures Replay(before + [Clear] + after, stored) == Sequential(before + [Clear] + after, stored) <==>
            RecordAll(before).Added() <= RecordAll(after).Removed() + RecordAll(after).Added()
  {
    var calls := before + [Clear] + after;
    assert Clear in calls && Reset !in calls;
    NoReset(calls);
    PerformConcat(before + [Clear], after, {});
    PerformAppend(before, Clear, {});
    SequentialClears(before, after, stored);
    SequentialPerforms(after, {});
    RecordPerforms(before, {});
    RecordPerforms(after, Perform(before, {}));
    RecordPerforms(after, {});
  }

  /** Index of the last Clear. */
  function LastClear(calls: seq<EdgeCall>): (k: nat)
    requires Clear in calls
    ensures k < |calls| && calls[k] == Clear && Clear !in calls[k + 1..]
  {
    var n := |calls| - 1;
    if calls[n] == Clear then n
    else
      assert calls == calls[..n] + [calls[n]];
      var k := LastClear(calls[..n]);
      assert calls[k + 1..] == calls[..n][k + 1..] + [calls[n]];
      k
  }

  /** For every history: the record acts as if the calls since the last Reset took effect in their order,
      exactly if there is no Clear among them, or every id pending at the last one is added or removed again
      afterwards. */
  lemma ClearInOrder(calls: seq<EdgeCall>, stored: set<string>)
    ensures var live := calls[AfterReset(calls)..];
            Replay(calls, stored) == Sequential(live, stored) <==>
            || Clear !in live
            || var k := LastClear(live);
               RecordAll(live[..k]).Added() <= RecordAll(live[k + 1..]).Removed() + RecordAll(live[k + 1..]).Added()
  {
    var live := calls[AfterReset(calls)..];
    assert Reset !in live;
    if Clear in live {
      var k := LastClear(live);
      assert live == live[..k] + [Clear] + live[k + 1..];
      NoReset(live);
      assert live[0..] == live;
      ClearOutOfOrder(live[..k], live[k + 1..], stored);
    } else {
      SequentialPerforms(live, stored);
    }
  }

  /** An id added before a Clear stays. */
  lemma ClearForgotten()
    ensures Replay([Add(["x"]), Clear], {}) == {"x"} && Sequential([Add(["x"]), Clear], {}) == {}
  {
    var calls := [Add(["x"]), Clear];
    NoReset(calls);
    assert calls[0..] == calls && calls[1..] == [Clear] && calls[1..][1..] == [];
    assert calls[1] == Clear && Clear in calls;
    assert Perform(calls[1..], {"x"}) == Perform([], {"x"});
    assert Sequential(calls[1..], {"x"}) == Sequential([], {});
    assert {} + ToSet(["x"]) == {"x"};
  }

  // ---------------------------------------------------------------- the specification against the record

  predicate Mentions(spec: UpdateSpec, edge: EdgeName) {
    || (exists i :: 0 <= i < |spec.clear| && spec.clear[i].edge == edge)
    || (exists i :: 0 <= i < |spec.add| && spec.add[i].edge == edge)
  }

  lemma {:induction false} ClearOthers(s: Stored, specs: seq<EdgeSpec>, edge: EdgeName)
    requires forall i :: 0 <= i < |specs| ==> specs[i].edge != edge
    ensures ClearEdges(s, specs).Get(edge) == s.Get(edge)
    decreases |specs|
  {
    if specs != [] {
      var spec := specs[0];
      var next := s.Put(spec.edge, if spec.nodes == [] then {} else s.Get(spec.edge) - ToSet(spec.nodes));
      ClearOthers(next, specs[1..], edge);
    }
  }

  lemma {:induction false} ClearLast(s: Stored, specs: seq<EdgeSpec>, last: EdgeSpec)
    ensures ClearEdges(s, specs + [last]) == ClearEdges(ClearEdges(s, specs), [last])
    decreases |specs|
  {
    if specs == [] {
      assert specs + [last] == [last];
    } else {
      var spec := specs[0];
      assert (specs + [last])[1..] == specs[1..] + [last];
      var next := s.Put(spec.edge, if spec.nodes == [] then {} else s.Get(spec.edge) - ToSet(spec.nodes));
      ClearLast(next, specs[1..], last);
    }
  }

  lemma {:induction false} AddLast(s: Stored, specs: seq<EdgeSpec>, last: EdgeSpec)
    ensures AddEdges(s, specs + [last]) == AddEdges(AddEdges(s, specs), [last])
    decreases |specs|
  {
    if specs == [] {
      assert specs + [last] == [last];
    } else {
      var spec := specs[0];
      assert (specs + [last])[1..] == specs[1..] + [last];
      var kept := if spec.edge == AccountEdge then {} else s.Get(spec.edge);
      AddLast(s.Put(spec.edge, ToSet(spec.nodes) + kept), specs[1..], last);
    }
  }

  /** Adding other edges neither sees nor touches this one. */
  lemma {:induction false} AddOthers(s: Stored, specs: seq<EdgeSpec>, edge: EdgeName, ids: set<string>)
    requires forall i :: 0 <= i < |specs| ==> specs[i].edge != edge
    ensures AddEdges(s.Put(edge, ids), specs) == AddEdges(s, specs).Put(edge, ids)
    decreases |specs|
  {
    if specs != [] {
      var spec := specs[0];
      var nodes := ToSet(spec.nodes) + if spec.edge == AccountEdge then {} else s.Get(spec.edge);
      assert s.Put(edge, ids).Put(spec.edge, nodes) == s.Put(spec.edge, nodes).Put(edge, ids);
      AddOthers(s.Put(spec.edge, nodes), specs[1..], edge, ids);
    }
  }

  /** The part of one to-many edge does to that edge what the record says and nothing else. */
  lemma EmittedNet(s: Stored, spec: UpdateSpec, edge: EdgeName, e: Edge, lost: seq<string>, gained: seq<string>)
    requires edge != AccountEdge && !Mentions(spec, edge)
    requires ToSet(lost) == e.Removed() && ToSet(gained) == e.Added()
    ensures Update(s, Emitted(edge, e.cleared, lost, gained, spec)) == Update(s, spec).Put(edge, Net(e, s.Get(edge)))
  {
    var cleared := ClearEdges(s, spec.clear);
    var kept := if e.cleared then {} else s.Get(edge) - e.Removed();
    var whole := Emitted(edge, e.cleared, lost, gained, spec);
    ClearOthers(s, spec.clear, edge);
    assert ClearEdges(s, whole.clear) == cleared.Put(edge, kept) by {
      if e.cleared || lost != [] {
        var last := EdgeSpec(edge, if e.cleared then [] else lost);
        ClearLast(s, spec.clear, last);
        assert ClearEdges(cleared, [last]) == cleared.Put(edge, kept);
      } else {
        assert cleared == cleared.Put(edge, cleared.Get(edge));
      }
    }
    AddOthers(cleared, spec.add, edge, kept);
    if gained != [] {
      var last := EdgeSpec(edge, gained);
      AddLast(cleared.Put(edge, kept), spec.add, last);
      var before := AddEdges(cleared, spec.add).Put(edge, kept);
      assert AddEdges(before, [last]) == before.Put(edge, ToSet(gained) + kept);
      assert ToSet(gained) + kept == kept + e.Added();
    }
  }

  // ---------------------------------------------------------------- the unique edge

  datatype AccountCall = SetID(id: string) | ClearAccount | ResetAccount

  /** The last id set since the last reset, and whether the edge was cleared since. */
  function AccountSet(calls: seq<AccountCall>): Option<string> {
    if calls == [] then None else
      match calls[|calls| - 1]
      case SetID(id) => Some(id)
      case ClearAccount => AccountSet(calls[..|calls| - 1])
      case ResetAccount => None
  }

  predicate AccountCleared(calls: seq<AccountCall>) {
    calls != [] &&
    (calls[|calls| - 1] == ClearAccount
     || (calls[|calls| - 1] != ResetAccount && AccountCleared(calls[..|calls| - 1])))
  }

  /** No reset comes behind call i. */
  predicate Standing(calls: seq<AccountCall>, i: nat) {
    i < |calls| && forall j :: i < j < |calls| ==> calls[j] != ResetAccount
  }

  /** Call i sets an id, and neither a reset nor another id comes behind it. */
  predicate LastSet(calls: seq<AccountCall>, i: nat) {
    Standing(calls, i) && calls[i].SetID? && forall j :: i < j < |calls| ==> !calls[j].SetID?
  }

  predicate StandingClear(calls: seq<AccountCall>, i: nat) {
    Standing(calls, i) && calls[i] == ClearAccount
  }

  /** The pending id is the one set last, if it stands; the edge is cleared if some clearing stands. */
  lemma AccountHistory(calls: seq<AccountCall>)
    ensures forall i :: 0 <= i < |calls| && LastSet(calls, i) ==> AccountSet(calls) == Some(calls[i].id)
    ensures AccountSet(calls).Some? <==> exists i: nat :: LastSet(calls, i)
    ensures AccountCleared(calls) <==> exists i: nat :: StandingClear(calls, i)
  {
    forall i | 0 <= i < |calls| && LastSet(calls, i)
      ensures AccountSet(calls) == Some(calls[i].id)
    {
      SetAt(calls, i);
    }
    if AccountSet(calls).Some? {
      var i := SetFound(calls);
    }
    if AccountCleared(calls) {
      var i := ClearFound(calls);
    }
    if i: nat :| StandingClear(calls, i) {
      ClearAt(calls, i);
    }
  }

  lemma {:induction false} SetAt(calls: seq<AccountCall>, i: nat)
    requires LastSet(calls, i)
    ensures AccountSet(calls) == Some(calls[i].id)
  {
    var n := |calls| - 1;
    if i < n {
      assert calls[n] == ClearAccount;
      SetAt(calls[..n], i);
    }
  }

  lemma {:induction false} SetFound(calls: seq<AccountCall>) returns (i: nat)
    requires AccountSet(calls).Some?
    ensures LastSet(calls, i)
  {
    i := |calls| - 1;
    if calls[i] == ClearAccount {
      i := SetFound(calls[..i]);
    }
  }

  lemma {:induction false} ClearAt(calls: seq<AccountCall>, i: nat)
    requires StandingClear(calls, i)
    ensures AccountCleared(calls)
  {
    var n := |calls| - 1;
    if i < n {
      assert calls[n] != ResetAccount;
      ClearAt(calls[..n], i);
    }
  }

  lemma {:induction false} ClearFound(calls: seq<AccountCall>) returns (i: nat)
    requires AccountCleared(calls)
    ensures StandingClear(calls, i)
  {
    i := |calls| - 1;
    if calls[i] != ClearAccount {
      i := ClearFound(calls[..i]);
    }
  }

  /** The edge was set and cleared, in whatever order, and neither was taken back. */
  ghost predicate SetAndCleared(calls: seq<AccountCall>) {
    exists i: nat, j: nat :: Standing(calls, i) && calls[i].SetID? && Standing(calls, j) && calls[j] == ClearAccount
  }

  lemma SetAndClearedExactly(calls: seq<AccountCall>)
    ensures SetAndCleared(calls) <==> AccountCleared(calls) && AccountSet(calls).Some?
  {
    AccountHistory(calls);
    if i: nat, j: nat :| Standing(calls, i) && calls[i].SetID? && Standing(calls, j) && calls[j] == ClearAccount {
      var k := LaterSet(calls, i);
      assert LastSet(calls, k) && StandingClear(calls, j);
    }
    if AccountCleared(calls) && AccountSet(calls).Some? {
      var i := SetFound(calls);
      var j := ClearFound(calls);
      assert Standing(calls, i) && calls[i].SetID? && Standing(calls, j) && calls[j] == ClearAccount;
    }
  }

  lemma {:induction false} LaterSet(calls: seq<AccountCall>, i: nat) returns (k: nat)
    requires Standing(calls, i) && calls[i].SetID?
    ensures LastSet(calls, k)
    decreases |calls| - i
  {
    k := i;
    if j :| i < j < |calls| && calls[j].SetID? {
      k := LaterSet(calls, j);
    }
  }

  function ReplayAccount(calls: seq<AccountCall>, stored: set<string>): set<string> {
    if AccountSet(calls).Some? then {AccountSet(calls).value}
    else if AccountCleared(calls) then {}
    else stored
  }

  /** The part of sqlSave for the account edge. */
  function EmittedAccount(id: Option<string>, cleared: bool): UpdateSpec {
    UpdateSpec(if cleared then [EdgeSpec(AccountEdge, [])] else [],
               if id.Some? then [EdgeSpec(AccountEdge, [id.value])] else [])
  }

  lemma EmittedAccountNet(s: Stored, calls: seq<AccountCall>)
    ensures Update(s, EmittedAccount(AccountSet(calls), AccountCleared(calls))) ==
            s.Put(AccountEdge, ReplayAccount(calls, s.account))
  {
    var id := AccountSet(calls);
    if AccountCleared(calls) {
      assert ClearEdges(s, [EdgeSpec(AccountEdge, [])]) == s.Put(AccountEdge, {});
    }
    if id.Some? {
      assert ToSet([id.value]) == {id.value};
      forall t: Stored
        ensures AddEdges(t, [EdgeSpec(AccountEdge, [id.value])]) == t.Put(AccountEdge, {id.value})
      {
        assert AddEdges(t.Put(AccountEdge, {id.value}), []) == t.Put(AccountEdge, {id.value});
      }
    }
  }

  // ---------------------------------------------------------------- the whole update

  datatype StoreError = MissingRow | ConstraintViolated | DriverFailed

  datatype SaveError =
    | InvalidField(name: string)
    | MissingID
    | ClearingRequiredEdge
    | NotFound
    | ConstraintFailed
    | Failed

  function Wrap(e: StoreError): SaveError {
    match e
    case MissingRow => NotFound
    case ConstraintViolated => ConstraintFailed
    case DriverFailed => Failed
  }

  /** What a save reports of the database's verdict: a missing row as not found, a violated constraint as such. */
  predicate Reported(err: Option<SaveError>, refusal: Option<StoreError>) {
    match refusal
    case None => err == None
    case Some(MissingRow) => err == Some(NotFound)
    case Some(ConstraintViolated) => err == Some(ConstraintFailed)
    case Some(DriverFailed) => err == Some(Failed)
  }

  /** The database, which carries out an update specification or refuses it as a whole. */
  class Store {
    var stored: Stored

    constructor (stored: Stored)
      ensures this.stored == stored
    {
      this.stored := stored;
    }

    method UpdateNode(spec: UpdateSpec, refusal: Option<StoreError>) returns (err: Option<StoreError>)
      modifies this
      ensures err == refusal
      ensures stored == if err == None then Update(old(stored), spec) else old(stored)
    {
      err := refusal;
      if err == None {
        stored := Update(stored, spec);
      }
    }
  }

  class CalendarMutation {
    var account: Option<string>
    var clearedAccount: bool
    const events: EdgeRecord
    const tasks: EdgeRecord
    var done: bool
    ghost var accountCalls: seq<AccountCall>

    ghost predicate Valid()
      reads this, events, tasks
    {
      && events != tasks
      && events.Valid() && tasks.Valid()
      && account == AccountSet(accountCalls)
      && clearedAccount == AccountCleared(accountCalls)
    }

    constructor ()
      ensures Valid() && fresh(events) && fresh(tasks) && !done
      ensures accountCalls == [] && events.calls == [] && tasks.calls == []
    {
      account, clearedAccount, done := None, false, false;
      events := new EdgeRecord();
      tasks := new EdgeRecord();
      accountCalls := [];
    }

    method SetAccountID(id: string)
      requires Valid()
      modifies this`account, this`accountCalls
      ensures Valid() && accountCalls == old(accountCalls) + [SetID(id)]
    {
      account := Some(id);
      accountCalls := accountCalls + [SetID(id)];
      assert accountCalls[..|accountCalls| - 1] == old(accountCalls);
    }

    method ClearAccountEdge()
      requires Valid()
      modifies this`clearedAccount, this`accountCalls
      ensures Valid() && accountCalls == old(accountCalls) + [ClearAccount]
    {
      clearedAccount := true;
      accountCalls := accountCalls + [ClearAccount];
      assert accountCalls[..|accountCalls| - 1] == old(accountCalls);
    }

    method ResetAccountEdge()
      requires Valid()
      modifies this`account, this`clearedAccount, this`accountCalls
      ensures Valid() && accountCalls == old(accountCalls) + [ResetAccount]
    {
      account, clearedAccount := None, false;
      accountCalls := accountCalls + [ResetAccount];
    }

    /** check: a field the validators refuse, `invalid`, or else an account that was set and cleared. */
    method Check(invalid: Option<string>) returns (err: Option<SaveError>)
      requires Valid()
      ensures err == if invalid.Some? then Some(InvalidField(invalid.value))
                     else if SetAndCleared(accountCalls) then Some(ClearingRequiredEdge)
                     else None
    {
      SetAndClearedExactly(accountCalls);
      if invalid != None {
        return Some(InvalidField(invalid.value));
      }
      if clearedAccount && account != None {
        return Some(ClearingRequiredEdge);
      }
      err := None;
    }

    /** What a save leaves: every edge is what replaying the mutation's calls on the stored edge gives. */
    ghost predicate Saved(before: Stored, after: Stored)
      reads this, events, tasks
    {
      && after.account == ReplayAccount(accountCalls, before.account)
      && after.events == Replay(events.calls, before.events)
      && after.tasks == Replay(tasks.calls, before.tasks)
    }

    /** The specification of all edges. */
    method Specify(ghost s: Stored) returns (spec: UpdateSpec)
      requires Valid()
      ensures Saved(s, Update(s, spec))
    {
      spec := EmittedAccount(account, clearedAccount);
      EmittedAccountNet(s, accountCalls);
      ghost var before := spec;
      ghost var lost, gained;
      spec, lost, gained := events.Emit(EventsEdge, spec);
      EmittedNet(s, before, EventsEdge, events.View(), lost, gained);
      before := spec;
      spec, lost, gained := tasks.Emit(TasksEdge, spec);
      EmittedNet(s, before, TasksEdge, tasks.View(), lost, gained);
      RecordReplays(events.calls, s.events);
      RecordReplays(tasks.calls, s.tasks);
    }

    /** The part of sqlSave behind the checks; `refusal` is the verdict of the database. */
    method Write(store: Store, refusal: Option<StoreError>) returns (err: Option<SaveError>)
      requires Valid()
      modifies this`done, store
      ensures Valid()
      ensures Reported(err, refusal)
      ensures err != None ==> store.stored == old(store.stored) && done == old(done)
      ensures err == None ==> done && Saved(old(store.stored), store.stored)
    {
      var spec := Specify(store.stored);
      var refused := store.UpdateNode(spec, refusal);
      if refused != None {
        return Some(Wrap(refused.value));
      }
      done := true;
      err := None;
    }

    /** sqlSave of an update: nothing happens unless the checks pass and the database accepts the
        specification; then the edges are saved and the mutation is done. */
    method SqlSave(store: Store, invalid: Option<string>, refusal: Option<StoreError>) returns (err: Option<SaveError>)
      requires Valid()
      modifies this`done, store
      ensures Valid()
      ensures if invalid.Some? then err == Some(InvalidField(invalid.value))
              else if SetAndCleared(accountCalls) then err == Some(ClearingRequiredEdge)
              else Reported(err, refusal)
      ensures err != None ==> store.stored == old(store.stored) && done == old(done)
      ensures err == None ==> done && Saved(old(store.stored), store.stored)
    {
      err := Check(invalid);
      if err == None {
        err := Write(store, refusal);
      }
    }

    /** sqlSave of an update of one calendar: behind the checks it asks for the mutation's id, and for the
        fields selected to be columns; `unknown` is the first that is not. */
    method SqlSaveOne(store: Store, invalid: Option<string>, id: Option<string>, unknown: Option<string>,
                      refusal: Option<StoreError>)
      returns (err: Option<SaveError>)
      requires Valid()
      modifies this`done, store
      ensures Valid()
      ensures if invalid.Some? then err == Some(InvalidField(invalid.value))
              else if SetAndCleared(accountCalls) then err == Some(ClearingRequiredEdge)
              else if id == None then err == Some(MissingID)
              else if unknown.Some? then err == Some(InvalidField(unknown.value))
              else Reported(err, refusal)
      ensures err != None ==> store.stored == old(store.stored) && done == old(done)
      ensures err == None ==> done && Saved(old(store.stored), store.stored)
    {
      err := Check(invalid);
      if err != None {
        return;
      }
      if id == None {
        return Some(MissingID);
      }
      if unknown != None {
        return Some(InvalidField(unknown.value));
      }
      err := Write(store, refusal);
    }
  }
}
