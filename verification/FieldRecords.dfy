/** Fields of a mutation that remember more than their last value: list fields that are appended to,
    numeric fields that are added to, and the memoised old row (core/ent/mutation.go). */
module FieldRecords {

  import opened Options

  // ---------------------------------------------------------------- list fields

  datatype ListCall<T> = Set(value: seq<T>) | Append(value: seq<T>) | Clear | Reset

  /** The calls after the last one that is not an Append. */
  function Appends<T>(calls: seq<ListCall<T>>): (k: nat)
    ensures k <= |calls|
    ensures forall i :: k <= i < |calls| ==> calls[i].Append?
    ensures k > 0 ==> !calls[k - 1].Append?
  {
    if calls == [] || !calls[|calls| - 1].Append? then |calls| else Appends(calls[..|calls| - 1])
  }

  function Concat<T>(calls: seq<ListCall<T>>): seq<T>
    requires forall i :: 0 <= i < |calls| ==> calls[i].Append?
  {
    if calls == [] then [] else calls[0].value + Concat(calls[1..])
  }

  lemma {:induction false} ConcatLast<T>(calls: seq<ListCall<T>>, value: seq<T>)
    requires forall i :: 0 <= i < |calls| ==> calls[i].Append?
    ensures Concat(calls + [Append(value)]) == Concat(calls) + value
  {
    if calls == [] {
      assert Concat([Append(value)]) == value + Concat([Append(value)][1..]);
    } else {
      assert (calls + [Append(value)])[1..] == calls[1..] + [Append(value)];
      ConcatLast(calls[1..], value);
    }
  }

  /** The value of the last Set since the last Clear or Reset. */
  function LastSet<T>(calls: seq<ListCall<T>>): Option<seq<T>> {
    if calls == [] then None else
      match calls[|calls| - 1]
      case Set(value) => Some(value)
      case Append(_) => LastSet(calls[..|calls| - 1])
      case _ => None
  }

  /** Whether there was a Clear since the last Reset. */
  predicate ClearedSince<T>(calls: seq<ListCall<T>>) {
    calls != [] &&
    (calls[|calls| - 1].Clear? || (!calls[|calls| - 1].Reset? && ClearedSince(calls[..|calls| - 1])))
  }

  lemma AppendsLast<T>(calls: seq<ListCall<T>>, v: seq<T>)
    ensures var k, later := Appends(calls), calls + [Append(v)];
            && Appends(later) == k
            && Concat(later[k..]) == Concat(calls[k..]) + v
            && LastSet(later) == LastSet(calls)
            && ClearedSince(later) == ClearedSince(calls)
  {
    var k, later := Appends(calls), calls + [Append(v)];
    assert later[..|calls|] == calls;
    assert later[k..] == calls[k..] + [Append(v)];
    ConcatLast(calls[k..], v);
  }

  class ListField<T> {
    var value: Option<seq<T>>
    var appended: seq<T>
    var cleared: bool
    ghost var calls: seq<ListCall<T>>

    /** The appended list is the in-order concatenation of the appends since the last other call. */
    ghost predicate Valid()
      reads this
    {
      && appended == Concat(calls[Appends(calls)..])
      && value == LastSet(calls)
      && cleared == ClearedSince(calls)
    }

    constructor ()
      ensures Valid() && calls == []
    {
      value, appended, cleared, calls := None, [], false, [];
    }

    method SetValue(v: seq<T>)
      requires Valid()
      modifies this
      ensures Valid() && calls == old(calls) + [Set(v)] && value == Some(v) && cleared == old(cleared)
    {
      value, appended := Some(v), [];
      calls := calls + [Set(v)];
      assert calls[..|calls| - 1] == old(calls);
    }

    method AppendValue(v: seq<T>)
      requires Valid()
      modifies this
      ensures Valid() && calls == old(calls) + [Append(v)] && value == old(value) && cleared == old(cleared)
    {
      AppendsLast(calls, v);
      appended := appended + v;
      calls := calls + [Append(v)];
    }

    method ClearValue()
      requires Valid()
      modifies this
      ensures Valid() && calls == old(calls) + [Clear] && value == None && cleared
    {
      value, appended, cleared := None, [], true;
      calls := calls + [Clear];
      assert calls[..|calls| - 1] == old(calls);
    }

    method ResetValue()
      requires Valid()
      modifies this
      ensures Valid() && calls == old(calls) + [Reset] && value == None && !cleared
    {
      value, appended, cleared := None, [], false;
      calls := calls + [Reset];
      assert calls[..|calls| - 1] == old(calls);
    }
  }

  // ---------------------------------------------------------------- numeric fields

  const HALF := 0x8000_0000_0000_0000

  /** Two's-complement arithmetic of Go's 64-bit int. */
  function Wrap(n: int): int {
    (n + HALF) % (2 * HALF) - HALF
  }

  datatype NumberCall = SetTo(n: int) | AddTo(n: int) | ResetNumber

  function Adds(calls: seq<NumberCall>): (k: nat)
    ensures k <= |calls|
    ensures forall i :: k <= i < |calls| ==> calls[i].AddTo?
    ensures k > 0 ==> !calls[k - 1].AddTo?
  {
    if calls == [] || !calls[|calls| - 1].AddTo? then |calls| else Adds(calls[..|calls| - 1])
  }

  /** The value of the last Set since the last Reset. */
  function LastNumber(calls: seq<NumberCall>): Option<int> {
    if calls == [] then None else
      match calls[|calls| - 1]
      case SetTo(n) => Some(n)
      case AddTo(_) => LastNumber(calls[..|calls| - 1])
      case ResetNumber => None
  }

  function Sum(calls: seq<NumberCall>): int
    requires forall i :: 0 <= i < |calls| ==> calls[i].AddTo?
  {
    if calls == [] then 0 else Sum(calls[..|calls| - 1]) + calls[|calls| - 1].n
  }

  /** Wrapping at every addition is wrapping once at the end. */
  lemma WrapOnce(x: int, n: int)
    ensures Wrap(Wrap(x) + n) == Wrap(x + n)
    ensures -HALF <= n < HALF ==> Wrap(n) == n
  {
    var turns := (x + HALF) / (2 * HALF);
    assert Wrap(x) == x - turns * (2 * HALF);
    WholeTurns(x + n + HALF, turns);
  }

  lemma WholeTurns(y: int, turns: int)
    ensures (y - turns * (2 * HALF)) % (2 * HALF) == y % (2 * HALF)
  {
  }

  lemma AddsLast(calls: seq<NumberCall>, n: int)
    ensures var k, later := Adds(calls), calls + [AddTo(n)];
            && Adds(later) == k
            && later[k..] != []
            && Sum(later[k..]) == Sum(calls[k..]) + n
  {
    AddsTail(calls, n);
    SumLast(calls[Adds(calls)..], n);
  }

  lemma AddsTail(calls: seq<NumberCall>, n: int)
    ensures Adds(calls + [AddTo(n)]) == Adds(calls)
    ensures (calls + [AddTo(n)])[Adds(calls)..] == calls[Adds(calls)..] + [AddTo(n)]
  {
    assert (calls + [AddTo(n)])[..|calls|] == calls;
  }

  lemma SumLast(adds: seq<NumberCall>, n: int)
    requires forall i :: 0 <= i < |adds| ==> adds[i].AddTo?
    ensures Sum(adds + [AddTo(n)]) == Sum(adds) + n
  {
    assert (adds + [AddTo(n)])[..|adds|] == adds;
  }

  class NumberField {
    var value: Option<int>
    var added: Option<int>
    ghost var calls: seq<NumberCall>

    /** The added number is the wrapped sum of the additions since the last other call, and absent if
        there were none. */
    ghost predicate Valid()
      reads this
    {
      var adds := calls[Adds(calls)..];
      && value == LastNumber(calls)
      && added == if adds == [] then None else Some(Wrap(Sum(adds)))
    }

    constructor ()
      ensures Valid() && calls == []
    {
      value, added, calls := None, None, [];
    }

    method SetNumber(n: int)
      requires Valid()
      modifies this
      ensures Valid() && calls == old(calls) + [SetTo(n)] && value == Some(n)
    {
      value, added := Some(n), None;
      calls := calls + [SetTo(n)];
      assert calls[..|calls| - 1] == old(calls);
    }

    method AddNumber(n: int)
      requires Valid() && -HALF <= n < HALF
      modifies this
      ensures Valid() && calls == old(calls) + [AddTo(n)] && value == old(value)
    {
      AddsLast(calls, n);
      WrapOnce(Sum(calls[Adds(calls)..]), n);
      if added != None {
        added := Some(Wrap(added.value + n));
      } else {
        added := Some(n);
      }
      calls := calls + [AddTo(n)];
      assert calls[..|calls| - 1] == old(calls);
    }

    method ResetField()
      requires Valid()
      modifies this
      ensures Valid() && calls == old(calls) + [ResetNumber] && value == None
    {
      value, added := None, None;
      calls := calls + [ResetNumber];
      assert calls[..|calls| - 1] == old(calls);
    }
  }

  // ---------------------------------------------------------------- the memoised old row

  /** What the read function hands out: the row it fetched, the error of the fetch, or the refusal to
      fetch once the mutation is done. */
  datatype Answer<Row> = Fetched(row: Row) | FetchFailed | Refused

  /** What can happen around a mutation: somebody reads the old row (the fetch would fail or not), the
      save writes the new row, the save sets the done flag. */
  datatype Act<Row> = Read(fails: bool) | Write(row: Row) | Finish

  /** The row in the database after some acts. */
  function RowAfter<Row>(row: Row, acts: seq<Act<Row>>): Row {
    if acts == [] then row
    else if acts[|acts| - 1].Write? then acts[|acts| - 1].row
    else RowAfter(row, acts[..|acts| - 1])
  }

  predicate Finished<Row>(acts: seq<Act<Row>>) {
    acts != [] && (acts[|acts| - 1].Finish? || Finished(acts[..|acts| - 1]))
  }

  /** Index of the first read; the number of acts if there is none. */
  function FirstRead<Row>(acts: seq<Act<Row>>): (k: nat)
    ensures k <= |acts|
    ensures forall i :: 0 <= i < k ==> !acts[i].Read?
    ensures k < |acts| ==> acts[k].Read?
  {
    if acts == [] then 0 else
      var k := FirstRead(acts[..|acts| - 1]);
      if k == |acts| - 1 && !acts[k].Read? then |acts| else k
  }

  /** The answer that every read of a run gets: that of its first read. */
  function TheAnswer<Row>(row: Row, acts: seq<Act<Row>>): Option<Answer<Row>> {
    var k := FirstRead(acts);
    if k == |acts| then None
    else if Finished(acts[..k]) then Some(Refused)
    else if acts[k].fails then Some(FetchFailed)
    else Some(Fetched(RowAfter(row, acts[..k])))
  }

  class OldRow<Row> {
    /** The database row, the done flag of the mutation, and the answer that sync.Once keeps. */
    var row: Row
    var done: bool
    var kept: Option<Answer<Row>>
    ghost const original: Row
    ghost var acts: seq<Act<Row>>
    /** Number of fetches so far. */
    ghost var fetches: nat

    ghost predicate Valid()
      reads this
    {
      && row == RowAfter(original, acts)
      && done == Finished(acts)
      && kept == TheAnswer(original, acts)
      && fetches == if kept == None || kept == Some(Refused) then 0 else 1
    }

    constructor (row: Row)
      ensures Valid() && acts == [] && original == row
    {
      this.row, done, kept := row, false, None;
      original, acts, fetches := row, [], 0;
    }

    /** Every read is answered like the first one; the database is asked at most once and never after
        the mutation is done. */
    method ReadOld(fails: bool) returns (answer: Answer<Row>)
      requires Valid()
      modifies this`kept, this`acts, this`fetches
      ensures Valid() && acts == old(acts) + [Read(fails)]
      ensures Some(answer) == TheAnswer(original, acts)
      ensures old(kept) != None ==> Some(answer) == old(kept)
      ensures old(kept) != None || done ==> fetches == old(fetches)
      ensures fetches <= 1
    {
      OneMore(original, acts, Read(fails));
      if kept == None {
        if done {
          kept := Some(Refused);
        } else {
          kept := Some(if fails then FetchFailed else Fetched(row));
          fetches := fetches + 1;
        }
      }
      acts := acts + [Read(fails)];
      answer := kept.value;
    }

    method WriteRow(written: Row)
      requires Valid()
      modifies this`row, this`acts
      ensures Valid() && acts == old(acts) + [Write(written)]
    {
      OneMore(original, acts, Write(written));
      row := written;
      acts := acts + [Write(written)];
    }

    method SetDone()
      requires Valid()
      modifies this`done, this`acts
      ensures Valid() && acts == old(acts) + [Finish] && done
    {
      OneMore(original, acts, Finish);
      done := true;
      acts := acts + [Finish];
    }
  }

  lemma OneMore<Row>(row: Row, acts: seq<Act<Row>>, act: Act<Row>)
    ensures var later := acts + [act];
            && RowAfter(row, later) == (if act.Write? then act.row else RowAfter(row, acts))
            && (Finished(later) <==> act.Finish? || Finished(acts))
            && TheAnswer(row, later) ==
               if TheAnswer(row, acts).Some? || !act.Read? then TheAnswer(row, acts)
               else if Finished(acts) then Some(Refused)
               else if act.fails then Some(FetchFailed)
               else Some(Fetched(RowAfter(row, acts)))
  {
    var later, k := acts + [act], FirstRead(acts);
    assert later[..|acts|] == acts;
    assert later[..k] == acts[..k];
  }

  /** The save as one step: nothing happens between writing the row and setting the done flag. */
  predicate OneStepSave<Row>(acts: seq<Act<Row>>) {
    forall i :: 0 <= i < |acts| && acts[i].Write? ==> i + 1 < |acts| && acts[i + 1].Finish?
  }

  /** If the save is one step, no read of any run sees a row that the mutation wrote. */
  lemma {:induction false} OldRowIsOld<Row>(row: Row, acts: seq<Act<Row>>)
    requires OneStepSave(acts)
    ensures match TheAnswer(row, acts)
            case Some(Fetched(seen)) => seen == row
            case _ => true
  {
    var k := FirstRead(acts);
    if 0 < k < |acts| {
      assert acts[..k][k - 1].Finish?;
    }
  }

  lemma {:induction false} RowUpTo<Row>(row: Row, acts: seq<Act<Row>>, w: nat, k: nat)
    requires w < |acts| && acts[w].Write? && k <= |acts|
    requires forall i :: 0 <= i < |acts| && acts[i].Write? ==> i == w
    ensures RowAfter(row, acts[..k]) == if w < k then acts[w].row else row
    decreases k
  {
    if k > 0 {
      assert acts[..k][..k - 1] == acts[..k - 1];
      if w != k - 1 {
        RowUpTo(row, acts, w, k - 1);
      }
    }
  }

  lemma {:induction false} FinishedUpTo<Row>(acts: seq<Act<Row>>, f: nat, k: nat)
    requires f < |acts| && acts[f].Finish? && k <= |acts|
    requires forall i :: 0 <= i < |acts| && acts[i].Finish? ==> i == f
    ensures Finished(acts[..k]) <==> f < k
    decreases k
  {
    if k > 0 {
      assert acts[..k][..k - 1] == acts[..k - 1];
      FinishedUpTo(acts, f, k - 1);
    }
  }

  /** A save that writes a new row and then sets the flag, in any interleaving with reads: the new
      row is handed out exactly if the first read falls between the two. */
  lemma OldRowExposed<Row>(row: Row, acts: seq<Act<Row>>, w: nat, f: nat)
    requires w < f < |acts| && acts[w].Write? && acts[f].Finish? && acts[w].row != row
    requires forall i :: 0 <= i < |acts| && acts[i].Write? ==> i == w
    requires forall i :: 0 <= i < |acts| && acts[i].Finish? ==> i == f
    ensures TheAnswer(row, acts) == Some(Fetched(acts[w].row)) <==>
            w < FirstRead(acts) < f && !acts[FirstRead(acts)].fails
  {
    RowUpTo(row, acts, w, FirstRead(acts));
    FinishedUpTo(acts, f, FirstRead(acts));
  }

  /** A read between the two steps of a save gets the new row for the old one. */
  lemma NewRowForOld<Row>(row: Row, written: Row)
    ensures TheAnswer(row, [Write(written), Read(false), Finish]) == Some(Fetched(written))
  {
    var acts := [Write(written), Read(false), Finish];
    var one := [Write(written)];
    assert one[..0] == [] && acts[..1] == one && acts[..2][..1] == one;
    assert FirstRead(one) == 1;
    assert FirstRead(acts[..2]) == 1;
    assert FirstRead(acts) == 1;
    assert !Finished(one) && RowAfter(row, one) == written;
  }
}
