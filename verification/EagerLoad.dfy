/** Eager loading of the edges between calendars and events (core/ent/calendar_query.go and
    core/ent/event_query.go): children or parents are fetched in one query, grouped through a map
    and attached to the nodes. */
module EagerLoad {
  import opened EventRows
  import opened Options
  import opened Selection

  datatype LoadError =
    | QueryFailed(error: Error)
    | KeyIsNil                     // foreign-key "calendar_events" is nil
    | UnexpectedKey(key: string)   // unexpected (referenced) foreign-key

  // ---------------------------------------------------------------- the reference: a nested-loop join

  function Keys(events: seq<Event>): (r: seq<Option<string>>)
    reads events
    ensures |r| == |events| && forall i :: 0 <= i < |r| ==> r[i] == events[i].view.foreignKey
  {
    seq(|events|, i requires 0 <= i < |events| reads events => events[i].view.foreignKey)
  }

  /** The events whose key is `id`, in order. */
  function Matching<T>(events: seq<T>, keys: seq<Option<string>>, id: string): seq<T>
    requires |events| == |keys|
  {
    if events == [] then [] else
      var n := |events| - 1;
      Matching(events[..n], keys[..n], id) + if keys[n] == Some(id) then [events[n]] else []
  }

  lemma {:induction false} MatchingMembers<T>(events: seq<T>, keys: seq<Option<string>>, id: string, j: nat)
    requires j < |events| == |keys| && Distinct(events)
    ensures events[j] in Matching(events, keys, id) <==> keys[j] == Some(id)
  {
    var n := |events| - 1;
    if j < n {
      MatchingMembers(events[..n], keys[..n], id, j);
    } else if events[n] in Matching(events[..n], keys[..n], id) {
      MatchingFrom(events[..n], keys[..n], id, events[n]);
      assert false;
    }
  }

  lemma {:induction false} MatchingFrom<T>(events: seq<T>, keys: seq<Option<string>>, id: string, e: T)
    requires |events| == |keys|
    ensures e in Matching(events, keys, id) ==> e in events
  {
    if events != [] {
      var n := |events| - 1;
      MatchingFrom(events[..n], keys[..n], id, e);
      assert events == events[..n] + [events[n]];
    }
  }

  function IDs(calendars: seq<Calendar>): (r: seq<string>)
    ensures |r| == |calendars| && forall i :: 0 <= i < |r| ==> r[i] == calendars[i].id
  {
    seq(|calendars|, i requires 0 <= i < |calendars| => calendars[i].id)
  }

  predicate Distinct<T(==)>(s: seq<T>) {
    forall i, j :: 0 <= i < j < |s| ==> s[i] != s[j]
  }

  /** No node behind i has the id of node i. */
  predicate IsLast(ids: seq<string>, i: nat)
    requires i < |ids|
  {
    forall j :: i < j < |ids| ==> ids[j] != ids[i]
  }

  /** Number of neighbors before the first whose key is nil or names none of the nodes. */
  function Good(keys: seq<Option<string>>, ids: seq<string>): (k: nat)
    ensures k <= |keys|
    ensures forall i :: 0 <= i < k ==> keys[i].Some? && keys[i].value in ids
    ensures k < |keys| ==> keys[k].None? || keys[k].value !in ids
  {
    if keys == [] || keys[0].None? || keys[0].value !in ids then 0 else 1 + Good(keys[1..], ids)
  }

  /** The error for stopping at key k; none if all keys were good. */
  function Verdict(keys: seq<Option<string>>, k: nat): Option<LoadError>
    requires k <= |keys|
  {
    if k == |keys| then None else if keys[k].None? then Some(KeyIsNil) else Some(UnexpectedKey(keys[k].value))
  }

  // ---------------------------------------------------------------- one to many

  /** The map from ids to nodes: of nodes with the same id it keeps the last. */
  function Index(nodes: seq<Calendar>): map<string, Calendar> {
    if nodes == [] then map[] else
      var last := nodes[|nodes| - 1];
      Index(nodes[..|nodes| - 1])[last.id := last]
  }

  lemma {:induction false} IndexDomain(nodes: seq<Calendar>, id: string)
    ensures id in Index(nodes) <==> id in IDs(nodes)
  {
    if nodes != [] {
      var n := |nodes| - 1;
      IndexDomain(nodes[..n], id);
      assert IDs(nodes) == IDs(nodes[..n]) + [nodes[n].id];
    }
  }

  lemma {:induction false} IndexKeepsLast(nodes: seq<Calendar>, i: nat)
    requires i < |nodes| && IsLast(IDs(nodes), i)
    ensures nodes[i].id in Index(nodes) && Index(nodes)[nodes[i].id] == nodes[i]
  {
    var n := |nodes| - 1;
    if i < n {
      assert IDs(nodes)[n] != IDs(nodes)[i];
      forall j | i < j < n
        ensures IDs(nodes[..n])[j] != IDs(nodes[..n])[i]
      {
        assert IDs(nodes)[j] != IDs(nodes)[i];
      }
      IndexKeepsLast(nodes[..n], i);
    }
  }

  lemma {:induction false} LastOf(ids: seq<string>, j: nat) returns (i: nat)
    requires j < |ids|
    ensures j <= i < |ids| && ids[i] == ids[j] && IsLast(ids, i)
    decreases |ids| - j
  {
    i := j;
    if k :| j < k < |ids| && ids[k] == ids[j] {
      i := LastOf(ids, k);
    }
  }

  /** The node a key leads to. */
  lemma Owner(nodes: seq<Calendar>, id: string) returns (o: nat)
    requires id in IDs(nodes)
    ensures o < |nodes| && nodes[o].id == id && IsLast(IDs(nodes), o)
    ensures id in Index(nodes) && Index(nodes)[id] == nodes[o]
  {
    var j :| 0 <= j < |IDs(nodes)| && IDs(nodes)[j] == id;
    o := LastOf(IDs(nodes), j);
    IndexKeepsLast(nodes, o);
  }

  /** The loop of loadEvents before the query: the keys to ask for, the map from ids to nodes, and an
      empty list for every node. */
  method IndexCalendars(nodes: seq<Calendar>) returns (fks: seq<string>, nodeids: map<string, Calendar>)
    modifies nodes
    ensures fks == IDs(nodes) && nodeids == Index(nodes)
    ensures forall i :: 0 <= i < |nodes| ==> nodes[i].events == []
  {
    fks, nodeids := [], map[];
    for n := 0 to |nodes|
      invariant fks == IDs(nodes[..n]) && nodeids == Index(nodes[..n])
      invariant forall i :: 0 <= i < n ==> nodes[i].events == []
    {
      assert nodes[..n + 1][..n] == nodes[..n];
      fks := fks + [nodes[n].id];
      nodeids := nodeids[nodes[n].id := nodes[n]];
      nodes[n].events := [];
    }
    assert nodes[..|nodes|] == nodes;
  }

  /** What node i is given of some neighbors. */
  ghost function Given<T>(nodes: seq<Calendar>, i: nat, neighbors: seq<T>, keys: seq<Option<string>>): seq<T>
    requires i < |nodes| && |neighbors| == |keys|
  {
    if IsLast(IDs(nodes), i) then Matching(neighbors, keys, nodes[i].id) else []
  }

  lemma GivenStep<T>(nodes: seq<Calendar>, i: nat, o: nat, neighbors: seq<T>, keys: seq<Option<string>>, e: T)
    requires i < |nodes| && o < |nodes| && IsLast(IDs(nodes), o) && |neighbors| == |keys|
    ensures Given(nodes, i, neighbors + [e], keys + [Some(nodes[o].id)]) ==
            if i == o then Given(nodes, i, neighbors, keys) + [e] else Given(nodes, i, neighbors, keys)
  {
    assert (neighbors + [e])[..|neighbors|] == neighbors && (keys + [Some(nodes[o].id)])[..|keys|] == keys;
    if i != o && IsLast(IDs(nodes), i) {
      assert IDs(nodes)[i] != IDs(nodes)[o];
    }
  }

  ghost predicate Attached(nodes: seq<Calendar>, neighbors: seq<Event>, keys: seq<Option<string>>, n: nat)
    requires n <= |neighbors| == |keys|
    reads nodes
  {
    forall i :: 0 <= i < |nodes| ==> nodes[i].events == Given(nodes, i, neighbors[..n], keys[..n])
  }

  /** Appending one neighbor to the list of the node that its key leads to. */
  method AttachOne(nodes: seq<Calendar>, node: Calendar, neighbors: seq<Event>, n: nat,
                   ghost keys: seq<Option<string>>, ghost o: nat)
    requires Distinct(nodes) && o < |nodes| && node == nodes[o] && IsLast(IDs(nodes), o)
    requires n < |neighbors| == |keys| && keys[n] == Some(node.id)
    requires Attached(nodes, neighbors, keys, n)
    modifies nodes
    ensures Attached(nodes, neighbors, keys, n + 1)
  {
    assert neighbors[..n + 1] == neighbors[..n] + [neighbors[n]] && keys[..n + 1] == keys[..n] + [keys[n]];
    forall i | 0 <= i < |nodes|
      ensures Given(nodes, i, neighbors[..n + 1], keys[..n + 1]) ==
              if i == o then Given(nodes, i, neighbors[..n], keys[..n]) + [neighbors[n]]
              else Given(nodes, i, neighbors[..n], keys[..n])
    {
      GivenStep(nodes, i, o, neighbors[..n], keys[..n], neighbors[n]);
    }
    node.events := node.events + [neighbors[n]];
  }

  /** The loop of loadEvents behind the query. Up to the first neighbor with a nil or unknown key,
      every neighbor is appended to the list of the last node that has its key as id. */
  method AttachEvents(nodes: seq<Calendar>, nodeids: map<string, Calendar>, neighbors: seq<Event>)
    returns (err: Option<LoadError>)
    requires Distinct(nodes) && nodeids == Index(nodes)
    requires forall i :: 0 <= i < |nodes| ==> nodes[i].events == []
    modifies nodes
    ensures var keys := Keys(neighbors);
            var k := Good(keys, IDs(nodes));
            err == Verdict(keys, k) && Attached(nodes, neighbors, keys, k)
  {
    ghost var keys, ids := Keys(neighbors), IDs(nodes);
    for n := 0 to |neighbors|
      invariant n <= Good(keys, ids) && Attached(nodes, neighbors, keys, n)
    {
      var fk := neighbors[n].view.foreignKey;
      assert Keys(neighbors) == keys && fk == keys[n];
      if fk == None {
        assert Good(keys, ids) == n;
        return Some(KeyIsNil);
      }
      IndexDomain(nodes, fk.value);
      if fk.value !in nodeids {
        assert Good(keys, ids) == n;
        return Some(UnexpectedKey(fk.value));
      }
      ghost var o := Owner(nodes, fk.value);
      AttachOne(nodes, nodeids[fk.value], neighbors, n, keys, o);
    }
    err := None;
  }

  // ---------------------------------------------------------------- the query behind it

  /** The rows of the events table whose key is among `ids`, in table order; `keep` stands for the
      options the caller put on the query. */
  function Fetch(rows: seq<Row>, keep: Row -> bool, ids: seq<string>): seq<Row> {
    if rows == [] then [] else
      var n := |rows| - 1;
      var before := Fetch(rows[..n], keep, ids);
      if HasKey(rows[n], ids) && keep(rows[n]) then before + [rows[n]] else before
  }

  predicate HasKey(row: Row, ids: seq<string>) {
    ForeignKey in row && row[ForeignKey].Text? && row[ForeignKey].s in ids
  }

  /** The places of a table's rows whose key is among `ids` and that the caller keeps. */
  function Places(rows: seq<Row>, keep: Row -> bool, ids: seq<string>): seq<nat> {
    if rows == [] then [] else
      var n := |rows| - 1;
      var before := Places(rows[..n], keep, ids);
      if keep(rows[n]) && HasKey(rows[n], ids) then before + [n] else before
  }

  /** The query fetches exactly the rows whose key is a text among `ids` and that the caller keeps, each once
      and in table order. */
  lemma {:induction false} FetchPlaces(rows: seq<Row>, keep: Row -> bool, ids: seq<string>)
    ensures var at, fetched := Places(rows, keep, ids), Fetch(rows, keep, ids);
            && Increasing(at)
            && (forall i: nat :: i in at <==>
                  && i < |rows| && keep(rows[i])
                  && ForeignKey in rows[i] && rows[i][ForeignKey].Text? && rows[i][ForeignKey].s in ids)
            && |fetched| == |at|
            && forall j :: 0 <= j < |at| ==> at[j] < |rows| && fetched[j] == rows[at[j]]
  {
    FetchedFrom(rows, keep, ids);
    forall i: nat
      ensures i in Places(rows, keep, ids) <==> i < |rows| && keep(rows[i]) && HasKey(rows[i], ids)
    {
      PlacesMembers(rows, keep, ids, i);
    }
  }

  lemma {:induction false} PlacesMembers(rows: seq<Row>, keep: Row -> bool, ids: seq<string>, i: nat)
    ensures i in Places(rows, keep, ids) <==> i < |rows| && keep(rows[i]) && HasKey(rows[i], ids)
  {
    if rows != [] {
      var n := |rows| - 1;
      PlacesMembers(rows[..n], keep, ids, i);
      InLast(Places(rows[..n], keep, ids), n, i);
    }
  }

  lemma InLast<T>(s: seq<T>, last: T, x: T)
    ensures x in s + [last] <==> x in s || x == last
  {
  }

  lemma {:induction false} FetchedFrom(rows: seq<Row>, keep: Row -> bool, ids: seq<string>)
    ensures var at, fetched := Places(rows, keep, ids), Fetch(rows, keep, ids);
            && Increasing(at)
            && |fetched| == |at|
            && forall j :: 0 <= j < |at| ==> at[j] < |rows| && fetched[j] == rows[at[j]]
  {
    if rows != [] {
      FetchedFrom(rows[..|rows| - 1], keep, ids);
    }
  }

  /** Events read from the rows at some places, one each and in their order. */
  ghost predicate ReadAt(events: seq<Event>, view: Row -> Entity, rows: seq<Row>, at: seq<nat>)
    reads events
  {
    && |events| == |at|
    && forall j :: 0 <= j < |at| ==> at[j] < |rows| && events[j].view == view(rows[at[j]])
  }

  /** Rows of a table in which the required key is set. */
  predicate WellStored(codec: Codec, rows: seq<Row>) {
    forall i :: 0 <= i < |rows| ==> Readable(codec, rows[i]) && ForeignKey in rows[i] && ID in rows[i]
  }

  /** What a row is read as through a column list. */
  function Reader(codec: Codec, columns: seq<Column>): Row -> Entity {
    row => Read(codec, columns, row).entity
  }

  function ReadAll(view: Row -> Entity, rows: seq<Row>): (r: seq<Entity>)
    ensures |r| == |rows| && forall i :: 0 <= i < |r| ==> r[i] == view(rows[i])
  {
    seq(|rows|, i requires 0 <= i < |rows| => view(rows[i]))
  }

  /** sqlAll of the event query: one entity per row, read through the query's columns. */
  method SqlAll(codec: Codec, columns: seq<Column>, rows: seq<Row>) returns (nodes: seq<Event>, err: Option<Error>)
    ensures fresh(nodes) && Distinct(nodes) && forall e :: e in nodes ==> e.calendar == None
    ensures err == FirstError(codec, columns, rows)
    ensures err == None ==> Views(nodes) == ReadAll(Reader(codec, columns), rows)
  {
    nodes, err := [], None;
    for n := 0 to |rows|
      invariant FirstError(codec, columns, rows) == FirstError(codec, columns, rows[n..])
      invariant forall e :: e in nodes ==> e.calendar == None
      invariant fresh(nodes) && Distinct(nodes) && |nodes| == n && err == None
      invariant forall i :: 0 <= i < n ==> nodes[i].view == Read(codec, columns, rows[i]).entity
    {
      var values := ScanValues(columns);
      var node := new Event();
      err := node.AssignValues(codec, columns, FillAll(columns, values, rows[n]));
      nodes := nodes + [node];
      assert rows[n..][1..] == rows[n + 1..];
      if err != None {
        return;
      }
    }
  }

  /** The error of the first row that cannot be read. */
  function FirstError(codec: Codec, columns: seq<Column>, rows: seq<Row>): Option<Error> {
    if rows == [] then None else
      var first := Read(codec, columns, rows[0]).error;
      if first.Some? then first else FirstError(codec, columns, rows[1..])
  }

  lemma {:induction false} NoError(codec: Codec, columns: seq<Column>, rows: seq<Row>)
    requires AllReadable(codec, columns, rows)
    ensures FirstError(codec, columns, rows) == None
  {
    if rows != [] {
      NoError(codec, columns, rows[1..]);
    }
  }

  predicate AllReadable(codec: Codec, columns: seq<Column>, rows: seq<Row>) {
    forall i :: 0 <= i < |rows| ==> Read(codec, columns, rows[i]).error == None
  }

  function Views(events: seq<Event>): (r: seq<Entity>)
    reads events
    ensures |r| == |events| && forall i :: 0 <= i < |r| ==> r[i] == events[i].view
  {
    seq(|events|, i requires 0 <= i < |events| reads events => events[i].view)
  }

  /** What the nested-loop join gives a calendar: what is read from the rows whose key is its id, in table
      order; nothing if another calendar with that id comes later. */
  ghost predicate Joined(events: seq<Event>, id: string, last: bool, view: Row -> Entity, rows: seq<Row>,
                         keep: Row -> bool)
    reads events
  {
    ReadAt(events, view, rows, if last then Places(rows, keep, [id]) else [])
  }

  lemma FetchedAt(events: seq<Event>, view: Row -> Entity, rows: seq<Row>, keep: Row -> bool, ids: seq<string>)
    requires Views(events) == ReadAll(view, Fetch(rows, keep, ids))
    ensures ReadAt(events, view, rows, Places(rows, keep, ids))
  {
    FetchPlaces(rows, keep, ids);
    forall j | 0 <= j < |events|
      ensures events[j].view == view(rows[Places(rows, keep, ids)[j]])
    {
      assert Views(events)[j] == view(Fetch(rows, keep, ids)[j]);
    }
  }

  function EntityKeys(entities: seq<Entity>): (r: seq<Option<string>>)
    ensures |r| == |entities| && forall i :: 0 <= i < |r| ==> r[i] == entities[i].foreignKey
  {
    seq(|entities|, i requires 0 <= i < |entities| => entities[i].foreignKey)
  }

  /** How loading the rows asked for by `ids` ends: with the first row that cannot be read, else with the
      first key that is nil or was not asked for, else without error. */
  function LoadVerdict(codec: Codec, columns: seq<Column>, fetched: seq<Row>, ids: seq<string>): Option<LoadError> {
    var failed := FirstError(codec, columns, fetched);
    if failed.Some? then Some(QueryFailed(failed.value)) else
      var keys := EntityKeys(ReadAll(Reader(codec, columns), fetched));
      Verdict(keys, Good(keys, ids))
  }

  /** loadEvents: with the key forced into the query no error is possible on a well-stored table, and
      every calendar that is the last with its id holds exactly the entities of the rows whose key is
      its id, in table order; the others with that id hold none. */
  method LoadEvents(nodes: seq<Calendar>, codec: Codec, selected: seq<Column>, rows: seq<Row>, keep: Row -> bool)
    returns (err: Option<LoadError>)
    requires Distinct(nodes)
    modifies nodes
    ensures err == LoadVerdict(codec, QueryColumns(selected, true), Fetch(rows, keep, IDs(nodes)), IDs(nodes))
    ensures WellStored(codec, rows) ==>
              err == None && AllJoined(nodes, Reader(codec, QueryColumns(selected, true)), rows, keep)
  {
    var columns := QueryColumns(selected, true);
    ghost var neighbors;
    err, neighbors := LoadThrough(nodes, codec, columns, rows, keep);
    ghost var stored := WellStored(codec, rows);
    if stored {
      StoredReads(codec, selected, rows);
      FetchReads(codec, columns, rows, keep, IDs(nodes));
      NothingWrong(codec, columns, Fetch(rows, keep, IDs(nodes)), IDs(nodes));
      JoinedAll(nodes, neighbors, Reader(codec, columns), rows, keep);
    }
  }

  /** The loader for any column list. */
  method LoadThrough(nodes: seq<Calendar>, codec: Codec, columns: seq<Column>, rows: seq<Row>, keep: Row -> bool)
    returns (err: Option<LoadError>, ghost neighbors: seq<Event>)
    requires Distinct(nodes)
    modifies nodes
    ensures err == LoadVerdict(codec, columns, Fetch(rows, keep, IDs(nodes)), IDs(nodes))
    ensures err == None ==> Views(neighbors) == ReadAll(Reader(codec, columns), Fetch(rows, keep, IDs(nodes)))
    ensures err == None ==> Attached(nodes, neighbors, Keys(neighbors), |neighbors|)
  {
    var fks, nodeids := IndexCalendars(nodes);
    var fetched, failed := SqlAll(codec, columns, Fetch(rows, keep, fks));
    neighbors := fetched;
    if failed != None {
      return Some(QueryFailed(failed.value)), neighbors;
    }
    err := AttachFetched(nodes, nodeids, fetched);
  }

  /** Attaching leaves the neighbors as they were read. */
  method AttachFetched(nodes: seq<Calendar>, nodeids: map<string, Calendar>, neighbors: seq<Event>)
    returns (err: Option<LoadError>)
    requires Distinct(nodes) && nodeids == Index(nodes)
    requires forall i :: 0 <= i < |nodes| ==> nodes[i].events == []
    modifies nodes
    ensures Views(neighbors) == old(Views(neighbors)) && Edges(neighbors) == old(Edges(neighbors))
    ensures var keys := EntityKeys(old(Views(neighbors))); err == Verdict(keys, Good(keys, IDs(nodes)))
    ensures err == None ==> Attached(nodes, neighbors, Keys(neighbors), |neighbors|)
  {
    ghost var views, edges := Views(neighbors), Edges(neighbors);
    err := AttachEvents(nodes, nodeids, neighbors);
    assert Edges(neighbors) == edges;
    assert Views(neighbors) == views;
    assert Keys(neighbors) == EntityKeys(views);
  }

  /** What was read with its key and asked for by its key loads without error. */
  lemma NothingWrong(codec: Codec, columns: seq<Column>, fetched: seq<Row>, ids: seq<string>)
    requires AllReadable(codec, columns, fetched) && AllReadKey(Reader(codec, columns), fetched)
    requires AllHaveKey(fetched, ids)
    ensures LoadVerdict(codec, columns, fetched, ids) == None
  {
    NoError(codec, columns, fetched);
    AllGood(Reader(codec, columns), fetched, ids);
  }

  ghost function Listed(nodes: seq<Calendar>): (r: set<Event>)
    reads nodes
    ensures forall i, e :: 0 <= i < |nodes| && e in nodes[i].events ==> e in r
  {
    set i, e | 0 <= i < |nodes| && e in nodes[i].events :: e
  }

  ghost predicate AllJoined(nodes: seq<Calendar>, view: Row -> Entity, rows: seq<Row>, keep: Row -> bool)
    reads nodes, Listed(nodes)
  {
    forall i :: 0 <= i < |nodes| ==> Joined(nodes[i].events, nodes[i].id, IsLast(IDs(nodes), i), view, rows, keep)
  }

  predicate AllReadKey(view: Row -> Entity, rows: seq<Row>) {
    forall i :: 0 <= i < |rows| ==> ReadsKey(view, rows[i])
  }

  predicate AllHaveKey(rows: seq<Row>, ids: seq<string>) {
    forall i :: 0 <= i < |rows| ==> HasKey(rows[i], ids)
  }

  lemma {:induction false} FetchReads(codec: Codec, columns: seq<Column>, rows: seq<Row>, keep: Row -> bool,
                                      ids: seq<string>)
    requires AllReadable(codec, columns, rows) && AllReadKey(Reader(codec, columns), rows)
    ensures var fetched := Fetch(rows, keep, ids);
            && AllReadable(codec, columns, fetched)
            && AllReadKey(Reader(codec, columns), fetched)
            && AllHaveKey(fetched, ids)
  {
    if rows != [] {
      FetchReads(codec, columns, rows[..|rows| - 1], keep, ids);
    }
  }

  /** Rows of a well-stored table are read without error and with their key, whatever is selected. */
  lemma StoredReads(codec: Codec, selected: seq<Column>, rows: seq<Row>)
    requires WellStored(codec, rows)
    ensures var columns := QueryColumns(selected, true);
            AllReadable(codec, columns, rows) && AllReadKey(Reader(codec, columns), rows)
  {
    forall i | 0 <= i < |rows|
      ensures Read(codec, QueryColumns(selected, true), rows[i]).error == None
      ensures ReadsKey(Reader(codec, QueryColumns(selected, true)), rows[i])
    {
      ForcedForeignKey(codec, selected, rows[i]);
    }
  }

  /** Both errors of the loop are unreachable: every key that was read is among those asked for. */
  lemma AllGood(view: Row -> Entity, rows: seq<Row>, ids: seq<string>)
    requires AllReadKey(view, rows) && AllHaveKey(rows, ids)
    ensures Good(EntityKeys(ReadAll(view, rows)), ids) == |rows|
  {
    var keys := EntityKeys(ReadAll(view, rows));
    forall k | 0 <= k < |rows|
      ensures keys[k].Some? && keys[k].value in ids
    {
      assert HasKey(rows[k], ids) && ReadsKey(view, rows[k]);
    }
  }

  function WithKey(entities: seq<Entity>, id: string): seq<Entity> {
    if entities == [] then [] else
      var n := |entities| - 1;
      var before := WithKey(entities[..n], id);
      if entities[n].foreignKey == Some(id) then before + [entities[n]] else before
  }

  lemma {:induction false} MatchingViews(neighbors: seq<Event>, id: string)
    ensures Views(Matching(neighbors, Keys(neighbors), id)) == WithKey(Views(neighbors), id)
    decreases |neighbors|
  {
    if neighbors != [] {
      var n := |neighbors| - 1;
      MatchingViews(neighbors[..n], id);
      assert Keys(neighbors)[..n] == Keys(neighbors[..n]);
      assert Views(neighbors)[..n] == Views(neighbors[..n]);
      var front := Matching(neighbors[..n], Keys(neighbors[..n]), id);
      if Keys(neighbors)[n] == Some(id) {
        assert (front + [neighbors[n]])[..|front|] == front;
      }
    }
  }

  /** A row whose key is set, read through columns that include the key. */
  predicate ReadsKey(view: Row -> Entity, row: Row) {
    && ForeignKey in row && row[ForeignKey].Text?
    && view(row).foreignKey == Some(row[ForeignKey].s)
  }

  /** Selecting what was read by its key is reading the rows selected by their key. */
  lemma {:induction false} SelectRead(view: Row -> Entity, rows: seq<Row>, keep: Row -> bool,
                                      ids: seq<string>, id: string)
    requires id in ids && forall i :: 0 <= i < |rows| ==> ReadsKey(view, rows[i])
    ensures WithKey(ReadAll(view, Fetch(rows, keep, ids)), id) ==
            ReadAll(view, Fetch(rows, keep, [id]))
  {
    if rows != [] {
      var n := |rows| - 1;
      var row := rows[n];
      SelectRead(view, rows[..n], keep, ids, id);
      assert ReadsKey(view, row);
      assert HasKey(row, [id]) <==> row[ForeignKey].s == id;
      if HasKey(row, ids) && keep(row) {
        var e := view(row);
        ReadAllLast(view, Fetch(rows[..n], keep, ids), row);
        ReadAllLast(view, Fetch(rows[..n], keep, [id]), row);
        WithKeyLast(ReadAll(view, Fetch(rows[..n], keep, ids)), e, id);
      }
    }
  }

  lemma ReadAllLast(view: Row -> Entity, rows: seq<Row>, row: Row)
    ensures ReadAll(view, rows + [row]) ==
            ReadAll(view, rows) + [view(row)]
  {
  }

  lemma WithKeyLast(entities: seq<Entity>, e: Entity, id: string)
    ensures WithKey(entities + [e], id) ==
            if e.foreignKey == Some(id) then WithKey(entities, id) + [e] else WithKey(entities, id)
  {
    assert (entities + [e])[..|entities|] == entities;
  }

  /** A node's list, seen as entities. */
  lemma GivenViews(nodes: seq<Calendar>, i: nat, neighbors: seq<Event>, view: Row -> Entity,
                   rows: seq<Row>, keep: Row -> bool)
    requires i < |nodes| && IsLast(IDs(nodes), i)
    requires forall j :: 0 <= j < |rows| ==> ReadsKey(view, rows[j])
    requires Views(neighbors) == ReadAll(view, Fetch(rows, keep, IDs(nodes)))
    ensures Views(Given(nodes, i, neighbors, Keys(neighbors))) ==
            ReadAll(view, Fetch(rows, keep, [nodes[i].id]))
  {
    MatchingViews(neighbors, nodes[i].id);
    assert IDs(nodes)[i] == nodes[i].id;
    SelectRead(view, rows, keep, IDs(nodes), nodes[i].id);
  }

  lemma GivenJoined(nodes: seq<Calendar>, i: nat, given: seq<Event>, neighbors: seq<Event>, view: Row -> Entity,
                    rows: seq<Row>, keep: Row -> bool)
    requires i < |nodes| && given == Given(nodes, i, neighbors, Keys(neighbors))
    requires forall j :: 0 <= j < |rows| ==> ReadsKey(view, rows[j])
    requires Views(neighbors) == ReadAll(view, Fetch(rows, keep, IDs(nodes)))
    ensures Joined(given, nodes[i].id, IsLast(IDs(nodes), i), view, rows, keep)
  {
    if IsLast(IDs(nodes), i) {
      GivenViews(nodes, i, neighbors, view, rows, keep);
      FetchedAt(given, view, rows, keep, [nodes[i].id]);
    }
  }

  lemma JoinedAll(nodes: seq<Calendar>, neighbors: seq<Event>, view: Row -> Entity,
                  rows: seq<Row>, keep: Row -> bool)
    requires forall j :: 0 <= j < |rows| ==> ReadsKey(view, rows[j])
    requires Views(neighbors) == ReadAll(view, Fetch(rows, keep, IDs(nodes)))
    requires Attached(nodes, neighbors, Keys(neighbors), |neighbors|)
    ensures AllJoined(nodes, view, rows, keep)
  {
    forall i | 0 <= i < |nodes|
      ensures Joined(nodes[i].events, nodes[i].id, IsLast(IDs(nodes), i), view, rows, keep)
    {
      WholeGiven(nodes, i, neighbors, Keys(neighbors));
      GivenJoined(nodes, i, nodes[i].events, neighbors, view, rows, keep);
    }
  }

  lemma WholeGiven(nodes: seq<Calendar>, i: nat, neighbors: seq<Event>, keys: seq<Option<string>>)
    requires i < |nodes| && |neighbors| == |keys| && Attached(nodes, neighbors, keys, |neighbors|)
    ensures nodes[i].events == Given(nodes, i, neighbors, keys)
  {
    assert keys[..|neighbors|] == keys;
    assert neighbors[..|neighbors|] == neighbors;
  }

  // ---------------------------------------------------------------- exactness of the join

  /** A node is given its side of the join exactly if it is the last with its id, or the join has
      nothing for it. */
  lemma {:induction false} GivenIsJoin<T>(nodes: seq<Calendar>, i: nat, neighbors: seq<T>, keys: seq<Option<string>>)
    requires i < |nodes| && |neighbors| == |keys|
    ensures Given(nodes, i, neighbors, keys) == Matching(neighbors, keys, nodes[i].id) <==>
            IsLast(IDs(nodes), i) || Some(nodes[i].id) !in keys
  {
    MatchingNone(neighbors, keys, nodes[i].id);
  }

  lemma {:induction false} MatchingNone<T>(neighbors: seq<T>, keys: seq<Option<string>>, id: string)
    requires |neighbors| == |keys|
    ensures Matching(neighbors, keys, id) == [] <==> Some(id) !in keys
  {
    if neighbors != [] {
      var n := |neighbors| - 1;
      MatchingNone(neighbors[..n], keys[..n], id);
      assert keys == keys[..n] + [keys[n]];
    }
  }

  /** Grouping through the map is the nested-loop join for all neighbors just if the ids are distinct.
      The neighbors matter only through their keys, which stand for them here. */
  lemma JoinsExactly(nodes: seq<Calendar>)
    ensures Distinct(IDs(nodes)) <==>
            forall keys: seq<Option<string>>, i :: 0 <= i < |nodes| ==>
              Given(nodes, i, keys, keys) == Matching(keys, keys, nodes[i].id)
  {
    forall keys: seq<Option<string>>, i | 0 <= i < |nodes| && Distinct(IDs(nodes))
      ensures Given(nodes, i, keys, keys) == Matching(keys, keys, nodes[i].id)
    {
      GivenIsJoin(nodes, i, keys, keys);
    }
    if !Distinct(IDs(nodes)) {
      var i, j :| 0 <= i < j < |nodes| && IDs(nodes)[i] == IDs(nodes)[j];
      var keys := [Some(nodes[i].id)];
      GivenIsJoin(nodes, i, keys, keys);
      assert Some(nodes[i].id) in keys;
      assert Given(nodes, i, keys, keys) != Matching(keys, keys, nodes[i].id);
    }
  }

  /** Of two nodes with one id, the first misses the neighbor that the join gives it. */
  lemma DuplicateMisses(a: Calendar, b: Calendar)
    requires a.id == b.id
    ensures var keys := [Some(a.id)];
            Given([a, b], 0, keys, keys) == [] && Matching(keys, keys, a.id) == keys
  {
    var keys := [Some(a.id)];
    assert IDs([a, b])[0] == IDs([a, b])[1];
    assert keys[..0] == [];
  }

  /** What each of the nodes is given. */
  ghost function Lists<T>(nodes: seq<Calendar>, neighbors: seq<T>, keys: seq<Option<string>>): (r: seq<seq<T>>)
    requires |neighbors| == |keys|
    ensures |r| == |nodes| && forall i :: 0 <= i < |r| ==> r[i] == Given(nodes, i, neighbors, keys)
  {
    seq(|nodes|, i requires 0 <= i < |nodes| => Given(nodes, i, neighbors, keys))
  }

  function Total<T>(lists: seq<seq<T>>): multiset<T> {
    if lists == [] then multiset{} else Total(lists[..|lists| - 1]) + multiset(lists[|lists| - 1])
  }

  lemma {:induction false} TotalAppend<T>(lists: seq<seq<T>>, o: nat, e: T)
    requires o < |lists|
    ensures Total(lists[o := lists[o] + [e]]) == Total(lists) + multiset{e}
  {
    var n := |lists| - 1;
    if o < n {
      TotalAppend(lists[..n], o, e);
      assert lists[o := lists[o] + [e]][..n] == lists[..n][o := lists[o] + [e]];
    } else {
      assert lists[o := lists[o] + [e]][..n] == lists[..n];
    }
  }

  lemma {:induction false} TotalEmpty<T>(lists: seq<seq<T>>)
    requires forall i :: 0 <= i < |lists| ==> lists[i] == []
    ensures Total(lists) == multiset{}
  {
    if lists != [] {
      TotalEmpty(lists[..|lists| - 1]);
    }
  }

  lemma ListsStep<T>(nodes: seq<Calendar>, o: nat, neighbors: seq<T>, keys: seq<Option<string>>, e: T)
    requires o < |nodes| && IsLast(IDs(nodes), o) && |neighbors| == |keys|
    ensures var lists := Lists(nodes, neighbors, keys);
            Lists(nodes, neighbors + [e], keys + [Some(nodes[o].id)]) == lists[o := lists[o] + [e]]
  {
    forall i | 0 <= i < |nodes|
      ensures Given(nodes, i, neighbors + [e], keys + [Some(nodes[o].id)]) ==
              if i == o then Given(nodes, i, neighbors, keys) + [e] else Given(nodes, i, neighbors, keys)
    {
      GivenStep(nodes, i, o, neighbors, keys, e);
    }
  }

  lemma OneMore<T>(nodes: seq<Calendar>, neighbors: seq<T>, keys: seq<Option<string>>, n: nat)
    requires |neighbors| == |keys| == n + 1 && keys[n].Some? && keys[n].value in IDs(nodes)
    ensures Total(Lists(nodes, neighbors, keys)) ==
            Total(Lists(nodes, neighbors[..n], keys[..n])) + multiset{neighbors[n]}
  {
    var front, before := neighbors[..n], keys[..n];
    var o := Owner(nodes, keys[n].value);
    ListsStep(nodes, o, front, before, neighbors[n]);
    TotalAppend(Lists(nodes, front, before), o, neighbors[n]);
    SplitLast(neighbors);
    SplitLast(keys);
  }

  lemma SplitLast<T>(s: seq<T>)
    requires s != []
    ensures s == s[..|s| - 1] + [s[|s| - 1]]
  {
  }

  /** Every neighbor lands in exactly one list: together the lists hold each as often as it was
      fetched. */
  lemma {:induction false} EachInOneList<T>(nodes: seq<Calendar>, neighbors: seq<T>, keys: seq<Option<string>>)
    requires |neighbors| == |keys| && forall k :: 0 <= k < |keys| ==> keys[k].Some? && keys[k].value in IDs(nodes)
    ensures Total(Lists(nodes, neighbors, keys)) == multiset(neighbors)
  {
    if neighbors == [] {
      TotalEmpty(Lists(nodes, neighbors, keys));
    } else {
      var n := |neighbors| - 1;
      EachInOneList(nodes, neighbors[..n], keys[..n]);
      OneMore(nodes, neighbors, keys, n);
      SplitLast(neighbors);
    }
  }

  function EventLists(nodes: seq<Calendar>): (r: seq<seq<Event>>)
    reads nodes
    ensures |r| == |nodes| && forall i :: 0 <= i < |r| ==> r[i] == nodes[i].events
  {
    seq(|nodes|, i requires 0 <= i < |nodes| reads nodes => nodes[i].events)
  }

  /** After loading, the lists of the calendars hold every fetched event once. */
  lemma AttachedOnce(nodes: seq<Calendar>, neighbors: seq<Event>)
    requires Good(Keys(neighbors), IDs(nodes)) == |neighbors|
    requires Attached(nodes, neighbors, Keys(neighbors), |neighbors|)
    ensures Total(EventLists(nodes)) == multiset(neighbors)
  {
    var keys := Keys(neighbors);
    assert neighbors[..|neighbors|] == neighbors && keys[..|neighbors|] == keys;
    assert EventLists(nodes) == Lists(nodes, neighbors, keys);
    EachInOneList(nodes, neighbors, keys);
  }

  // ---------------------------------------------------------------- many to one

  /** The distinct keys, in the order of their first occurrence. */
  function Asked(keys: seq<Option<string>>): seq<string> {
    if keys == [] then [] else
      var n := |keys| - 1;
      var before := Asked(keys[..n]);
      if keys[n].None? || keys[n].value in before then before else before + [keys[n].value]
  }

  /** Where a key occurs first. */
  function First(keys: seq<Option<string>>, id: string): (r: nat)
    ensures r <= |keys| && forall j :: 0 <= j < r ==> keys[j] != Some(id)
    ensures r < |keys| ==> keys[r] == Some(id)
  {
    if keys == [] || keys[0] == Some(id) then 0 else 1 + First(keys[1..], id)
  }

  lemma {:induction false} AskedMembers(keys: seq<Option<string>>, id: string)
    ensures id in Asked(keys) <==> Some(id) in keys
  {
    if keys != [] {
      var n := |keys| - 1;
      AskedMembers(keys[..n], id);
      assert keys == keys[..n] + [keys[n]];
    }
  }

  /** Every parent is asked for exactly once, in the order of first occurrence; this determines the
      list of ids. */
  lemma {:induction false} AskedOnce(keys: seq<Option<string>>, i: nat, j: nat)
    requires i < j < |Asked(keys)|
    ensures First(keys, Asked(keys)[i]) < First(keys, Asked(keys)[j]) < |keys|
  {
    var n := |keys| - 1;
    var before := Asked(keys[..n]);
    AskedMembers(keys, Asked(keys)[j]);
    if j < |before| {
      AskedOnce(keys[..n], i, j);
      FirstPrefix(keys, n, before[i]);
      FirstPrefix(keys, n, before[j]);
    } else {
      AskedMembers(keys[..n], before[i]);
      AskedMembers(keys[..n], Asked(keys)[j]);
      FirstPrefix(keys, n, before[i]);
      assert First(keys, Asked(keys)[j]) == n by {
        assert forall k :: 0 <= k < n ==> keys[..n][k] == keys[k];
      }
    }
  }

  lemma FirstPrefix(keys: seq<Option<string>>, n: nat, id: string)
    requires n <= |keys| && Some(id) in keys[..n]
    ensures First(keys, id) == First(keys[..n], id) < n
  {
  }

  /** A map from every key that occurs to the nodes that have it. */
  ghost predicate Groups(nodes: seq<Event>, keys: seq<Option<string>>, nodeids: map<string, seq<Event>>)
    requires |nodes| == |keys|
  {
    && (forall id :: id in nodeids <==> Some(id) in keys)
    && forall id :: id in nodeids ==> nodeids[id] == Matching(nodes, keys, id)
  }

  lemma InStep<T>(s: seq<T>, n: nat, x: T)
    requires n < |s|
    ensures x in s[..n + 1] <==> x in s[..n] || x == s[n]
  {
    assert s[..n + 1] == s[..n] + [s[n]];
  }

  lemma MatchingStep<T>(events: seq<T>, keys: seq<Option<string>>, n: nat, id: string)
    requires n < |events| == |keys|
    ensures Matching(events[..n + 1], keys[..n + 1], id) ==
            Matching(events[..n], keys[..n], id) + if keys[n] == Some(id) then [events[n]] else []
  {
    assert events[..n + 1][..n] == events[..n] && keys[..n + 1][..n] == keys[..n];
  }

  lemma GroupsStep(nodes: seq<Event>, keys: seq<Option<string>>, nodeids: map<string, seq<Event>>, n: nat)
    requires n < |nodes| == |keys| && Groups(nodes[..n], keys[..n], nodeids)
    ensures keys[n] == None ==> Groups(nodes[..n + 1], keys[..n + 1], nodeids)
    ensures keys[n].Some? ==>
              var id := keys[n].value;
              var group := if id in nodeids then nodeids[id] else [];
              Groups(nodes[..n + 1], keys[..n + 1], nodeids[id := group + [nodes[n]]])
  {
    forall id
      ensures Some(id) in keys[..n + 1] <==> Some(id) in keys[..n] || Some(id) == keys[n]
      ensures Matching(nodes[..n + 1], keys[..n + 1], id) ==
              Matching(nodes[..n], keys[..n], id) + if keys[n] == Some(id) then [nodes[n]] else []
    {
      InStep(keys, n, Some(id));
      MatchingStep(nodes, keys, n, id);
    }
    if keys[n].Some? {
      var id := keys[n].value;
      MatchingNone(nodes[..n], keys[..n], id);
      assert (if id in nodeids then nodeids[id] else []) == Matching(nodes[..n], keys[..n], id);
    }
  }

  /** The loop of loadCalendar before the query. */
  method CollectKeys(nodes: seq<Event>) returns (ids: seq<string>, nodeids: map<string, seq<Event>>)
    ensures ids == Asked(Keys(nodes))
    ensures Groups(nodes, Keys(nodes), nodeids)
  {
    ids, nodeids := [], map[];
    ghost var keys := Keys(nodes);
    for n := 0 to |nodes|
      invariant ids == Asked(keys[..n]) && Groups(nodes[..n], keys[..n], nodeids)
    {
      GroupsStep(nodes, keys, nodeids, n);
      assert keys[..n + 1][..n] == keys[..n];
      if nodes[n].view.foreignKey != None {
        var fk := nodes[n].view.foreignKey.value;
        AskedMembers(keys[..n], fk);
        var group := [];
        if fk in nodeids {
          group := nodeids[fk];
        } else {
          ids := ids + [fk];
        }
        nodeids := nodeids[fk := group + [nodes[n]]];
      }
    }
    assert keys[..|nodes|] == keys && nodes[..|nodes|] == nodes;
  }

  /** The edge of a node after assigning some calendars: the last with the node's key as id, or what
      it was before. */
  function Chosen(calendars: seq<Calendar>, key: Option<string>, before: Option<Calendar>): Option<Calendar> {
    if calendars == [] then before else
      var n := |calendars| - 1;
      if key == Some(calendars[n].id) then Some(calendars[n]) else Chosen(calendars[..n], key, before)
  }

  /** Number of fetched calendars before the first that no node asked for. */
  function Known(calendars: seq<Calendar>, ids: seq<string>): (k: nat)
    ensures k <= |calendars|
    ensures forall i :: 0 <= i < k ==> calendars[i].id in ids
    ensures k < |calendars| ==> calendars[k].id !in ids
  {
    if calendars == [] || calendars[0].id !in ids then 0 else 1 + Known(calendars[1..], ids)
  }

  /** The edges of nodes with the given keys, after assigning some calendars. */
  predicate Parented(edges: seq<Option<Calendar>>, keys: seq<Option<string>>, calendars: seq<Calendar>,
                     before: seq<Option<Calendar>>)
    requires |edges| == |keys| == |before|
  {
    forall i :: 0 <= i < |edges| ==> edges[i] == Chosen(calendars, keys[i], before[i])
  }

  lemma ParentedStep(edges: seq<Option<Calendar>>, keys: seq<Option<string>>, calendars: seq<Calendar>, n: nat,
                     before: seq<Option<Calendar>>, after: seq<Option<Calendar>>)
    requires |edges| == |keys| == |before| == |after| && n < |calendars|
    requires Parented(edges, keys, calendars[..n], before)
    requires forall i :: 0 <= i < |edges| ==>
               after[i] == if keys[i] == Some(calendars[n].id) then Some(calendars[n]) else edges[i]
    ensures Parented(after, keys, calendars[..n + 1], before)
  {
    assert calendars[..n + 1][..n] == calendars[..n];
  }

  function Edges(nodes: seq<Event>): (r: seq<Option<Calendar>>)
    reads nodes
    ensures |r| == |nodes| && forall i :: 0 <= i < |r| ==> r[i] == nodes[i].calendar
  {
    seq(|nodes|, i requires 0 <= i < |nodes| reads nodes => nodes[i].calendar)
  }

  /** The inner loop: one calendar is assigned to all nodes with its id as key. */
  method AssignCalendar(nodes: seq<Event>, ghost keys: seq<Option<string>>, group: seq<Event>, c: Calendar)
    requires Distinct(nodes) && |keys| == |nodes| && group == Matching(nodes, keys, c.id)
    modifies nodes`calendar
    ensures forall i :: 0 <= i < |nodes| ==>
              Edges(nodes)[i] == if keys[i] == Some(c.id) then Some(c) else old(Edges(nodes))[i]
  {
    forall i | 0 <= i < |nodes|
      ensures nodes[i] in group <==> keys[i] == Some(c.id)
    {
      MatchingMembers(nodes, keys, c.id, i);
    }
    forall e | e in group ensures e in nodes {
      MatchingFrom(nodes, keys, c.id, e);
    }
    for j := 0 to |group|
      invariant forall e :: e in nodes ==> e.calendar == if e in group[..j] then Some(c) else old(e.calendar)
    {
      assert group[j] in group;
      group[j].calendar := Some(c);
      assert group[..j + 1] == group[..j] + [group[j]];
    }
    assert group[..|group|] == group;
  }

  /** The loop of loadCalendar behind the query. Up to the first calendar nobody asked for, every
      fetched calendar is assigned to all nodes that share its id as key. */
  method AttachCalendars(nodes: seq<Event>, nodeids: map<string, seq<Event>>, neighbors: seq<Calendar>)
    returns (err: Option<LoadError>)
    requires Distinct(nodes) && Groups(nodes, Keys(nodes), nodeids)
    modifies nodes`calendar
    ensures var k := Known(neighbors, Asked(Keys(nodes)));
            && err == (if k == |neighbors| then None else Some(UnexpectedKey(neighbors[k].id)))
            && Parented(Edges(nodes), Keys(nodes), neighbors[..k], old(Edges(nodes)))
  {
    ghost var keys, before := Keys(nodes), Edges(nodes);
    ghost var k := Known(neighbors, Asked(keys));
    for n := 0 to |neighbors|
      invariant n <= k && Keys(nodes) == keys
      invariant Parented(Edges(nodes), keys, neighbors[..n], before)
    {
      var c := neighbors[n];
      ghost var edges := Edges(nodes);
      AskedMembers(keys, c.id);
      if c.id !in nodeids {
        assert k == n;
        return Some(UnexpectedKey(c.id));
      }
      AssignCalendar(nodes, keys, nodeids[c.id], c);
      ParentedStep(edges, keys, neighbors, n, before, Edges(nodes));
    }
    err := None;
  }

  // ---------------------------------------------------------------- loadCalendar

  function FetchIDs(table: seq<string>, keep: string -> bool, ids: seq<string>): seq<string> {
    if table == [] then [] else
      var n := |table| - 1;
      var before := FetchIDs(table[..n], keep, ids);
      if table[n] in ids && keep(table[n]) then before + [table[n]] else before
  }

  lemma {:induction false} FetchedIDs(table: seq<string>, keep: string -> bool, ids: seq<string>, id: string)
    ensures id in FetchIDs(table, keep, ids) <==> id in table && id in ids && keep(id)
  {
    if table != [] {
      var n := |table| - 1;
      FetchedIDs(table[..n], keep, ids, id);
      assert table == table[..n] + [table[n]];
    }
  }

  /** The calendars query: a new entity for each row it selects. */
  method QueryCalendars(selected: seq<string>) returns (calendars: seq<Calendar>)
    ensures fresh(calendars) && IDs(calendars) == selected
  {
    calendars := [];
    for n := 0 to |selected|
      invariant fresh(calendars) && |calendars| == n && forall i :: 0 <= i < n ==> calendars[i].id == selected[i]
    {
      var c := new Calendar(selected[n]);
      calendars := calendars + [c];
    }
  }

  lemma {:induction false} ChosenIsParent(calendars: seq<Calendar>, key: Option<string>, before: Option<Calendar>)
    ensures var edge := Chosen(calendars, key, before);
            if key.Some? && key.value in IDs(calendars)
            then edge.Some? && edge.value in calendars && edge.value.id == key.value
            else edge == before
  {
    if calendars != [] {
      var n := |calendars| - 1;
      ChosenIsParent(calendars[..n], key, before);
      assert IDs(calendars) == IDs(calendars[..n]) + [calendars[n].id];
      assert calendars == calendars[..n] + [calendars[n]];
    }
  }

  /** Whether a node's parent is in the table, among the rows the caller keeps. */
  predicate HasParent(key: Option<string>, table: seq<string>, keep: string -> bool) {
    key.Some? && key.value in table && keep(key.value)
  }

  lemma {:induction false} SharedParent(calendars: seq<Calendar>, key: Option<string>, a: Option<Calendar>,
                                        b: Option<Calendar>)
    requires key.Some? && key.value in IDs(calendars)
    ensures Chosen(calendars, key, a) == Chosen(calendars, key, b)
  {
    var n := |calendars| - 1;
    if key != Some(calendars[n].id) {
      assert IDs(calendars) == IDs(calendars[..n]) + [calendars[n].id];
      SharedParent(calendars[..n], key, a, b);
    }
  }

  /** Every node whose parent is in the table has a calendar with its key as id, the same for all nodes
      with that key; every other node keeps its edge. */
  predicate Loaded(edges: seq<Option<Calendar>>, keys: seq<Option<string>>, table: seq<string>, keep: string -> bool,
                   before: seq<Option<Calendar>>)
    requires |edges| == |keys| == |before|
  {
    && (forall i :: 0 <= i < |keys| ==>
          if HasParent(keys[i], table, keep) then edges[i].Some? && Some(edges[i].value.id) == keys[i]
          else edges[i] == before[i])
    && (forall i, j :: 0 <= i < j < |keys| && keys[i] == keys[j] && HasParent(keys[i], table, keep) ==>
          edges[i] == edges[j])
  }

  lemma ParentFound(calendars: seq<Calendar>, table: seq<string>, keep: string -> bool, keys: seq<Option<string>>,
                    i: nat)
    requires i < |keys| && IDs(calendars) == FetchIDs(table, keep, Asked(keys))
    ensures HasParent(keys[i], table, keep) <==> keys[i].Some? && keys[i].value in IDs(calendars)
  {
    if keys[i].Some? {
      AskedMembers(keys, keys[i].value);
      FetchedIDs(table, keep, Asked(keys), keys[i].value);
    }
  }

  lemma ParentsFound(calendars: seq<Calendar>, table: seq<string>, keep: string -> bool, keys: seq<Option<string>>,
                     edges: seq<Option<Calendar>>, before: seq<Option<Calendar>>)
    requires |edges| == |keys| == |before| && IDs(calendars) == FetchIDs(table, keep, Asked(keys))
    requires Parented(edges, keys, calendars, before)
    ensures Loaded(edges, keys, table, keep, before)
  {
    forall i | 0 <= i < |keys|
      ensures if HasParent(keys[i], table, keep) then edges[i].Some? && Some(edges[i].value.id) == keys[i]
              else edges[i] == before[i]
    {
      ParentFound(calendars, table, keep, keys, i);
      ChosenIsParent(calendars, keys[i], before[i]);
    }
    forall i, j | 0 <= i < j < |keys| && keys[i] == keys[j] && HasParent(keys[i], table, keep)
      ensures edges[i] == edges[j]
    {
      ParentFound(calendars, table, keep, keys, i);
      SharedParent(calendars, keys[i], before[i], before[j]);
    }
  }

  lemma AllKnown(calendars: seq<Calendar>, table: seq<string>, keep: string -> bool, ids: seq<string>)
    requires IDs(calendars) == FetchIDs(table, keep, ids)
    ensures Known(calendars, ids) == |calendars|
  {
    var k := Known(calendars, ids);
    if k < |calendars| {
      assert IDs(calendars)[k] == calendars[k].id;
      FetchedIDs(table, keep, ids, calendars[k].id);
    }
  }

  lemma NothingAsked(keys: seq<Option<string>>, table: seq<string>, keep: string -> bool, edges: seq<Option<Calendar>>)
    requires |edges| == |keys| && Asked(keys) == []
    ensures Loaded(edges, keys, table, keep, edges)
  {
    forall i | 0 <= i < |keys|
      ensures keys[i] == None
    {
      if keys[i].Some? {
        AskedMembers(keys, keys[i].value);
      }
    }
  }

  /** loadCalendar: every parent is asked for once, and nothing is asked if no node has a key. An error of
      the query, `refusal`, is handed on and changes nothing; otherwise no error is possible, and the edges
      are as they should be. */
  method LoadCalendar(nodes: seq<Event>, table: seq<string>, keep: string -> bool, refusal: Option<Error>)
    returns (asked: Option<seq<string>>, err: Option<LoadError>)
    requires Distinct(nodes)
    modifies nodes`calendar
    ensures asked == if Asked(Keys(nodes)) == [] then None else Some(Asked(Keys(nodes)))
    ensures err == if asked.Some? && refusal.Some? then Some(QueryFailed(refusal.value)) else None
    ensures err != None ==> Edges(nodes) == old(Edges(nodes))
    ensures err == None ==> Loaded(Edges(nodes), Keys(nodes), table, keep, old(Edges(nodes)))
  {
    ghost var keys, before := Keys(nodes), Edges(nodes);
    var ids, nodeids := CollectKeys(nodes);
    if ids == [] {
      NothingAsked(keys, table, keep, before);
      return None, None;
    }
    asked := Some(ids);
    if refusal != None {
      return asked, Some(QueryFailed(refusal.value));
    }
    var neighbors := QueryCalendars(FetchIDs(table, keep, ids));
    AllKnown(neighbors, table, keep, ids);
    assert Keys(nodes) == keys && Edges(nodes) == before;
    err := AttachCalendars(nodes, nodeids, neighbors);
    assert Keys(nodes) == keys;
    ghost var edges := Edges(nodes);
    assert neighbors[..|neighbors|] == neighbors;
    ParentsFound(neighbors, table, keep, keys, edges, before);
  }

  // ---------------------------------------------------------------- both directions

  lemma {:induction false} ChosenIsLast(calendars: seq<Calendar>, i: nat, key: Option<string>)
    requires Distinct(calendars) && i < |calendars|
    ensures Chosen(calendars, key, None) == Some(calendars[i]) <==>
            key == Some(calendars[i].id) && IsLast(IDs(calendars), i)
  {
    var n := |calendars| - 1;
    ChosenIsParent(calendars, key, None);
    if i < n {
      if key != Some(calendars[n].id) {
        ChosenIsLast(calendars[..n], i, key);
      } else {
        assert IDs(calendars)[n] == calendars[n].id;
      }
    }
  }

  /** Over the same calendars and events, the two loaders agree: an event is in a calendar's list
      exactly if that calendar is the event's, even when several calendars share an id. */
  lemma DirectionsAgree(calendars: seq<Calendar>, events: seq<Event>)
    requires Distinct(calendars) && Distinct(events)
    requires Attached(calendars, events, Keys(events), |events|)
    requires forall j :: 0 <= j < |events| ==> Edges(events)[j] == Chosen(calendars, Keys(events)[j], None)
    ensures forall c, e :: c in calendars && e in events ==> (e in c.events <==> e.calendar == Some(c))
    ensures Distinct(IDs(calendars)) ==> forall c, e :: c in calendars && e in events ==>
              (e in c.events <==> e.calendar.Some? && e.calendar.value.id == c.id)
  {
    forall i, j | 0 <= i < |calendars| && 0 <= j < |events|
      ensures events[j] in calendars[i].events <==> events[j].calendar == Some(calendars[i])
      ensures events[j].calendar.Some? ==> events[j].calendar.value in calendars
    {
      var keys := Keys(events);
      assert events[..|events|] == events && keys[..|events|] == keys;
      MatchingMembers(events, keys, calendars[i].id, j);
      ChosenIsLast(calendars, i, keys[j]);
      ChosenIsParent(calendars, keys[j], None);
      assert Edges(events)[j] == events[j].calendar;
    }
    if Distinct(IDs(calendars)) {
      forall c, d | c in calendars && d in calendars && c.id == d.id
        ensures c == d
      {
        var i :| 0 <= i < |calendars| && calendars[i] == c;
        var j :| 0 <= j < |calendars| && calendars[j] == d;
        assert IDs(calendars)[i] == IDs(calendars)[j];
      }
    }
  }

  // ---------------------------------------------------------------- one run of both

  /** An event is among a calendar's events exactly if it has that calendar's id as key, and exactly if a
      calendar with that id was loaded for it. */
  ghost predicate Consistent(c: Calendar, e: Event)
    reads c, e
  {
    && (e in c.events <==> e.view.foreignKey == Some(c.id))
    && (e in c.events <==> e.calendar.Some? && e.calendar.value.id == c.id)
  }

  /** Events attached to calendars that the table of calendars has, and that were given their calendars from
      it, are consistent with them. */
  lemma OneRunAgrees(nodes: seq<Calendar>, neighbors: seq<Event>, i: nat, j: nat, table: seq<string>,
                     keep: string -> bool, before: seq<Option<Calendar>>)
    requires i < |nodes| && j < |neighbors| == |before| && before[j] == None
    requires Distinct(neighbors) && IsLast(IDs(nodes), i)
    requires nodes[i].events == Given(nodes, i, neighbors, Keys(neighbors))
    requires Loaded(Edges(neighbors), Keys(neighbors), table, keep, before)
    requires FoundAgain(nodes[i], table, keep)
    ensures Consistent(nodes[i], neighbors[j])
  {
    var key := Keys(neighbors)[j];
    MatchingMembers(neighbors, Keys(neighbors), nodes[i].id, j);
    assert Edges(neighbors)[j] == neighbors[j].calendar;
    assert key == Some(nodes[i].id) ==> HasParent(key, table, keep);
  }

  /** That, for every calendar that is the last with its id and that is found again, and for every event. */
  ghost predicate AllConsistent(nodes: seq<Calendar>, neighbors: seq<Event>, table: seq<string>, keep: string -> bool)
    reads nodes, neighbors
  {
    forall i, j | 0 <= i < |nodes| && 0 <= j < |neighbors| ::
      (IsLast(IDs(nodes), i) && FoundAgain(nodes[i], table, keep) ==> Consistent(nodes[i], neighbors[j]))
  }

  predicate FoundAgain(c: Calendar, table: seq<string>, keep: string -> bool) {
    c.id in table && keep(c.id)
  }

  lemma AllAgree(nodes: seq<Calendar>, neighbors: seq<Event>, table: seq<string>, keep: string -> bool)
    requires Distinct(neighbors) && Attached(nodes, neighbors, Keys(neighbors), |neighbors|)
    requires Parents(neighbors, table, keep)
    ensures AllConsistent(nodes, neighbors, table, keep)
  {
    var keys := Keys(neighbors);
    assert keys[..|neighbors|] == keys;
    assert neighbors[..|neighbors|] == neighbors;
    forall i, j | 0 <= i < |nodes| && 0 <= j < |neighbors| && IsLast(IDs(nodes), i) && FoundAgain(nodes[i], table, keep)
      ensures Consistent(nodes[i], neighbors[j])
    {
      OneRunAgrees(nodes, neighbors, i, j, table, keep, Nothing(|neighbors|));
    }
  }

  function Nothing(n: nat): (r: seq<Option<Calendar>>)
    ensures |r| == n && forall i :: 0 <= i < n ==> r[i] == None
  {
    seq(n, i => None)
  }

  /** Events that were given their calendars, having had none. */
  ghost predicate Parents(events: seq<Event>, table: seq<string>, keep: string -> bool)
    reads events
  {
    Loaded(Edges(events), Keys(events), table, keep, Nothing(|events|))
  }

  /** loadCalendar for events that have no calendar yet. */
  method LoadParents(events: seq<Event>, table: seq<string>, keep: string -> bool, refusal: Option<Error>)
    returns (err: Option<LoadError>)
    requires Distinct(events) && Edges(events) == Nothing(|events|)
    modifies events`calendar
    ensures Views(events) == old(Views(events))
    ensures err == Unasked(EntityKeys(old(Views(events))), refusal)
    ensures err == None ==> Parents(events, table, keep)
  {
    ghost var views, keys := Views(events), Keys(events);
    assert keys == EntityKeys(views);
    var asked;
    asked, err := LoadCalendar(events, table, keep, refusal);
    assert Views(events) == views;
    assert Keys(events) == keys;
  }

  /** An error of the calendars query, if there is anything to ask. */
  function Unasked(keys: seq<Option<string>>, refusal: Option<Error>): Option<LoadError> {
    if refusal.Some? && Asked(keys) != [] then Some(QueryFailed(refusal.value)) else None
  }

  /** How reading rows and loading their parents ends: with the first row that cannot be read, else with an
      error of the calendars query, else without error. */
  function NestedError(codec: Codec, columns: seq<Column>, rows: seq<Row>, refusal: Option<Error>): Option<LoadError> {
    var failed := FirstError(codec, columns, rows);
    if failed.Some? then Some(QueryFailed(failed.value))
    else Unasked(EntityKeys(ReadAll(Reader(codec, columns), rows)), refusal)
  }

  /** sqlAll of the event query with the calendars of the events. */
  method SqlAllNested(codec: Codec, columns: seq<Column>, rows: seq<Row>, table: seq<string>, keep: string -> bool,
                      refusal: Option<Error>)
    returns (events: seq<Event>, err: Option<LoadError>)
    ensures fresh(events) && Distinct(events)
    ensures err == NestedError(codec, columns, rows, refusal)
    ensures err == None ==> Views(events) == ReadAll(Reader(codec, columns), rows) && Parents(events, table, keep)
  {
    var failed;
    events, failed := SqlAll(codec, columns, rows);
    if failed != None {
      return events, Some(QueryFailed(failed.value));
    }
    assert Edges(events) == Nothing(|events|);
    err := LoadParents(events, table, keep, refusal);
  }

  /** Attaching events that have their calendars. */
  method AttachNested(nodes: seq<Calendar>, nodeids: map<string, Calendar>, neighbors: seq<Event>,
                      ghost table: seq<string>, ghost keep: string -> bool)
    returns (err: Option<LoadError>)
    requires Distinct(nodes) && nodeids == Index(nodes) && Distinct(neighbors)
    requires forall i :: 0 <= i < |nodes| ==> nodes[i].events == []
    requires Parents(neighbors, table, keep)
    modifies nodes
    ensures Views(neighbors) == old(Views(neighbors))
    ensures var keys := EntityKeys(old(Views(neighbors))); err == Verdict(keys, Good(keys, IDs(nodes)))
    ensures err == None ==> AllConsistent(nodes, neighbors, table, keep)
  {
    ghost var keys := Keys(neighbors);
    err := AttachFetched(nodes, nodeids, neighbors);
    assert Keys(neighbors) == keys;
    if err == None {
      AllAgree(nodes, neighbors, table, keep);
    }
  }

  /** Loading the events of calendars, and with them the calendars of the events, in one run. */
  method LoadNested(nodes: seq<Calendar>, codec: Codec, columns: seq<Column>, rows: seq<Row>, keepRow: Row -> bool,
                    table: seq<string>, keep: string -> bool, refusal: Option<Error>)
    returns (err: Option<LoadError>, neighbors: seq<Event>)
    requires Distinct(nodes)
    modifies nodes
    ensures fresh(neighbors)
    ensures var fetched := Fetch(rows, keepRow, IDs(nodes));
            var nested := NestedError(codec, columns, fetched, refusal);
            err == if nested.Some? then nested else LoadVerdict(codec, columns, fetched, IDs(nodes))
    ensures err == None ==> ReadAt(neighbors, Reader(codec, columns), rows, Places(rows, keepRow, IDs(nodes)))
    ensures err == None ==> AllConsistent(nodes, neighbors, table, keep)
  {
    var fks, nodeids := IndexCalendars(nodes);
    neighbors, err := SqlAllNested(codec, columns, Fetch(rows, keepRow, fks), table, keep, refusal);
    if err == None {
      err := AttachNested(nodes, nodeids, neighbors, table, keep);
      FetchedAt(neighbors, Reader(codec, columns), rows, keepRow, IDs(nodes));
    }
  }
}
