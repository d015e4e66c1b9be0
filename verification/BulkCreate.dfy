/** Chained bulk creation of events (core/ent/event_create.go): every builder's mutator validates,
    builds its specification and calls the next builder's mutator; the last one writes the batch. */
module BulkCreate {

  import opened Options

  datatype Error =
    | Invalid(field: string, reason: string)   // ValidationError
    | Constraint                               // ConstraintError around the driver's error
    | Failed(message: string)

  datatype Value = Text(s: string) | Time(t: int) | Flag(b: bool) | Json(doc: string)

  /** The fields set on a mutation, its id and its calendar edge among them. */
  type Fields = map<string, Value>

  // ---------------------------------------------------------------- defaults and checks

  const CONFIRMED := Text("confirmed")
  const STATUSES := {Text("confirmed"), Text("tentative"), Text("cancelled")}

  /** The defaults of a builder: what is set stays, what is missing of these four is set, the times to two
      readings of the clock. */
  predicate Defaulted(before: Fields, after: Fields, created: int, updated: int) {
    && after.Keys == before.Keys + {"status", "all_day", "created", "updated"}
    && (forall f :: f in before ==> after[f] == before[f])
    && ("status" !in before ==> after["status"] == Text("confirmed"))
    && ("all_day" !in before ==> after["all_day"] == Flag(false))
    && ("created" !in before ==> after["created"] == Time(created))
    && ("updated" !in before ==> after["updated"] == Time(updated))
  }

  function Missing(fields: Fields, names: seq<string>): Option<Error> {
    if names == [] then None
    else if names[0] !in fields then Some(Invalid(names[0], "missing required field"))
    else Missing(fields, names[1..])
  }

  function OrElse(first: Option<Error>, second: Option<Error>): Option<Error> {
    if first.Some? then first else second
  }

  function Validated(fields: Fields, name: string, ok: Value -> bool): Option<Error> {
    if name in fields && !ok(fields[name]) then Some(Invalid(name, "validator failed")) else None
  }

  /** The checks in their order: the error is that of the first one that fails. */
  function Check(fields: Fields): Option<Error> {
    OrElse(Missing(fields, ["uid"]),
    OrElse(Validated(fields, "uid", v => v != Text("")),
    OrElse(Missing(fields, ["summary", "status"]),
    OrElse(Validated(fields, "status", v => v in STATUSES),
    OrElse(Missing(fields, ["start", "end", "all_day", "created", "updated"]),
    OrElse(Validated(fields, "id", (v: Value) => v.Text? && 0 < |v.s| <= 64),
    if "calendar" in fields then None else Some(Invalid("calendar", "missing required edge"))))))))
  }

  /** What is asked of an event: its required fields are there, and the uid, the status and, if set, the id are
      among those allowed. */
  predicate Accepted(f: Fields) {
    && "uid" in f && "summary" in f && "status" in f && "start" in f && "end" in f
    && "all_day" in f && "created" in f && "updated" in f && "calendar" in f
    && f["uid"] != Text("")
    && (f["status"] == Text("confirmed") || f["status"] == Text("tentative") || f["status"] == Text("cancelled"))
    && ("id" in f ==> f["id"].Text? && 1 <= |f["id"].s| <= 64)
  }

  /** A condition, and the error that reports it unmet. */
  datatype Demand = Demand(met: bool, error: Error)

  function Lacking(name: string): Error {
    Invalid(name, "missing required field")
  }

  function Refused(name: string): Error {
    Invalid(name, "validator failed")
  }

  const DEMANDS := 12

  /** What `check` demands, in its order. */
  function DemandAt(f: Fields, i: nat): Demand
    requires i < DEMANDS
  {
    match i
    case 0 => Demand("uid" in f, Lacking("uid"))
    case 1 => Demand("uid" in f ==> f["uid"] != Text(""), Refused("uid"))
    case 2 => Demand("summary" in f, Lacking("summary"))
    case 3 => Demand("status" in f, Lacking("status"))
    case 4 => Demand("status" in f ==> f["status"] == Text("confirmed") || f["status"] == Text("tentative")
                                       || f["status"] == Text("cancelled"), Refused("status"))
    case 5 => Demand("start" in f, Lacking("start"))
    case 6 => Demand("end" in f, Lacking("end"))
    case 7 => Demand("all_day" in f, Lacking("all_day"))
    case 8 => Demand("created" in f, Lacking("created"))
    case 9 => Demand("updated" in f, Lacking("updated"))
    case 10 => Demand("id" in f ==> f["id"].Text? && 1 <= |f["id"].s| <= 64, Refused("id"))
    case 11 => Demand("calendar" in f, Invalid("calendar", "missing required edge"))
  }

  function Unless(met: bool, error: Error): Option<Error> {
    if met then None else Some(error)
  }

  /** The error of the first demand from i on that is not met. */
  function FirstUnmet(f: Fields, i: nat): Option<Error>
    requires i <= DEMANDS
    decreases DEMANDS - i
  {
    if i == DEMANDS then None
    else OrElse(Unless(DemandAt(f, i).met, DemandAt(f, i).error), FirstUnmet(f, i + 1))
  }

  lemma MissingStep(f: Fields, names: seq<string>)
    requires names != []
    ensures Missing(f, names) == OrElse(Unless(names[0] in f, Lacking(names[0])), Missing(f, names[1..]))
  {
  }

  lemma MissingOne(f: Fields, a: string)
    ensures Missing(f, [a]) == Unless(a in f, Lacking(a))
  {
    MissingStep(f, [a]);
    assert [a][1..] == [];
  }

  lemma MissingTwo(f: Fields, a: string, b: string)
    ensures Missing(f, [a, b]) == OrElse(Unless(a in f, Lacking(a)), Unless(b in f, Lacking(b)))
  {
    MissingStep(f, [a, b]);
    assert [a, b][1..] == [b];
    MissingOne(f, b);
  }

  lemma MissingFive(f: Fields, a: string, b: string, c: string, d: string, e: string)
    ensures Missing(f, [a, b, c, d, e]) ==
            OrElse(Unless(a in f, Lacking(a)),
            OrElse(Unless(b in f, Lacking(b)),
            OrElse(Unless(c in f, Lacking(c)),
            OrElse(Unless(d in f, Lacking(d)), Unless(e in f, Lacking(e))))))
  {
    MissingStep(f, [a, b, c, d, e]);
    assert [a, b, c, d, e][1..] == [b, c, d, e];
    MissingStep(f, [b, c, d, e]);
    assert [b, c, d, e][1..] == [c, d, e];
    MissingStep(f, [c, d, e]);
    assert [c, d, e][1..] == [d, e];
    MissingTwo(f, d, e);
  }

  lemma CheckIsFirst(f: Fields)
    ensures Check(f) == FirstUnmet(f, 0)
  {
    MissingOne(f, "uid");
    MissingTwo(f, "summary", "status");
    MissingFive(f, "start", "end", "all_day", "created", "updated");
    var last := FirstUnmet(f, 10);
    assert last == OrElse(Unless(DemandAt(f, 10).met, DemandAt(f, 10).error), FirstUnmet(f, 11));
    assert FirstUnmet(f, 8) == OrElse(Unless("created" in f, Lacking("created")), FirstUnmet(f, 9));
    assert FirstUnmet(f, 6) == OrElse(Unless("end" in f, Lacking("end")), FirstUnmet(f, 7));
    assert FirstUnmet(f, 4) == OrElse(Unless(DemandAt(f, 4).met, DemandAt(f, 4).error), FirstUnmet(f, 5));
    assert FirstUnmet(f, 2) == OrElse(Unless("summary" in f, Lacking("summary")), FirstUnmet(f, 3));
  }

  lemma {:induction false} FirstUnmetAt(f: Fields, i: nat, k: nat)
    requires i <= k <= DEMANDS && forall j :: i <= j < k ==> DemandAt(f, j).met
    requires k < DEMANDS ==> !DemandAt(f, k).met
    ensures FirstUnmet(f, i) == if k == DEMANDS then None else Some(DemandAt(f, k).error)
    decreases k - i
  {
    if i < k {
      FirstUnmetAt(f, i + 1, k);
    }
  }

  /** The error is that of the first demand that is not met, if there is one. */
  lemma CheckRefuses(f: Fields, k: nat)
    requires k <= DEMANDS && forall i :: 0 <= i < k ==> DemandAt(f, i).met
    requires k < DEMANDS ==> !DemandAt(f, k).met
    ensures Check(f) == if k == DEMANDS then None else Some(DemandAt(f, k).error)
  {
    CheckIsFirst(f);
    FirstUnmetAt(f, 0, k);
  }

  /** The checks let an event pass exactly if it is acceptable. */
  lemma CheckAccepts(f: Fields)
    ensures Check(f) == None <==> Accepted(f)
  {
    MissingOne(f, "uid");
    MissingTwo(f, "summary", "status");
    MissingFive(f, "start", "end", "all_day", "created", "updated");
  }

  // ---------------------------------------------------------------- builders as values

  /** What a hook does first: call on, or answer itself, be it with an error or with a success. */
  datatype Entry = Proceed | Stop(verdict: Option<Error>)

  /** A hook around a builder's mutator, in a run: what it does first, and what it makes of the verdict
      that comes back if it calls on. */
  datatype Hook = Hook(before: Entry, after: Option<Error> -> Option<Error>)

  /** A builder of the chain: the verdict of its checks, and its hooks. */
  datatype Builder = Builder(checked: Option<Error>, hooks: seq<Hook>)

  /** Number of hooks passed on the way in. */
  function Passed(hooks: seq<Hook>): (k: nat)
    ensures k <= |hooks|
    ensures forall i :: 0 <= i < k ==> hooks[i].before.Proceed?
    ensures k < |hooks| ==> hooks[k].before.Stop?
  {
    if hooks == [] || hooks[0].before.Stop? then 0 else 1 + Passed(hooks[1..])
  }

  /** The verdict on the way out through the hooks, the innermost first. */
  function Leave(hooks: seq<Hook>, err: Option<Error>): Option<Error> {
    if hooks == [] then err else hooks[0].after(Leave(hooks[1..], err))
  }

  /** What a run of the chain from builder i on amounts to: its verdict, whether the batch was
      written, and which of the builders from i on were marked done. */
  datatype Outcome = Outcome(err: Option<Error>, wrote: bool, done: seq<bool>)

  function Falses(n: nat): (r: seq<bool>)
    ensures |r| == n && forall i :: 0 <= i < n ==> !r[i]
  {
    seq(n, i => false)
  }

  function Chain(bs: seq<Builder>, verdict: Option<Error>): (o: Outcome)
    ensures |o.done| == |bs|
  {
    if bs == [] then Outcome(verdict, true, []) else
      var hooks, k := bs[0].hooks, Passed(bs[0].hooks);
      if k < |hooks| then Outcome(Leave(hooks[..k], hooks[k].before.verdict), false, Falses(|bs|))
      else if bs[0].checked.Some? then Outcome(Leave(hooks, bs[0].checked), false, Falses(|bs|))
      else
        var inner := Chain(bs[1..], verdict);
        Outcome(Leave(hooks, inner.err), inner.wrote, [inner.err == None] + inner.done)
  }

  // ---------------------------------------------------------------- what holds of every chain

  predicate AllValid(bs: seq<Builder>) {
    forall i :: 0 <= i < |bs| ==> bs[i].checked == None
  }

  ghost predicate PassThrough(b: Builder) {
    forall i :: 0 <= i < |b.hooks| ==> b.hooks[i].before.Proceed? && forall e :: b.hooks[i].after(e) == e
  }

  /** Whatever the hooks do, the batch is written only after every check has passed. */
  lemma {:induction false} WrittenOnlyIfValid(bs: seq<Builder>, verdict: Option<Error>)
    ensures Chain(bs, verdict).wrote ==> AllValid(bs)
  {
    if bs != [] {
      WrittenOnlyIfValid(bs[1..], verdict);
      assert bs == [bs[0]] + bs[1..];
    }
  }

  lemma {:induction false} LeaveThrough(hooks: seq<Hook>, err: Option<Error>)
    requires forall i :: 0 <= i < |hooks| ==> forall e :: hooks[i].after(e) == e
    ensures Leave(hooks, err) == err
  {
    if hooks != [] {
      LeaveThrough(hooks[1..], err);
    }
  }

  /** Index of the first builder whose check fails; the number of builders if there is none. */
  function FirstInvalid(bs: seq<Builder>): (k: nat)
    ensures k <= |bs|
    ensures forall i :: 0 <= i < k ==> bs[i].checked == None
    ensures k < |bs| ==> bs[k].checked.Some?
  {
    if bs == [] || bs[0].checked.Some? then 0 else 1 + FirstInvalid(bs[1..])
  }

  /** With hooks that pass on, bulk creation is all or nothing: if a check fails, the verdict is that
      of the first builder that fails and nothing is written; otherwise the verdict is that of the
      batch; and either all mutations are done, exactly if the verdict is a success, or none. */
  lemma {:induction false} AllOrNothing(bs: seq<Builder>, verdict: Option<Error>)
    requires forall i :: 0 <= i < |bs| ==> PassThrough(bs[i])
    ensures var o, k := Chain(bs, verdict), FirstInvalid(bs);
            && o.err == (if k < |bs| then bs[k].checked else verdict)
            && (o.wrote <==> k == |bs|)
            && forall i :: 0 <= i < |bs| ==> (o.done[i] <==> o.err == None)
  {
    if bs != [] {
      var first := bs[0];
      assert PassThrough(first);
      AllOrNothing(bs[1..], verdict);
      assert Passed(first.hooks) == |first.hooks|;
      forall err: Option<Error>
        ensures Leave(first.hooks, err) == err
      {
        LeaveThrough(first.hooks, err);
      }
    }
  }

  // ---------------------------------------------------------------- the chain in closed form

  function HooksOf(bs: seq<Builder>): (r: seq<seq<Hook>>)
    ensures |r| == |bs| && forall i :: 0 <= i < |r| ==> r[i] == bs[i].hooks
  {
    seq(|bs|, i requires 0 <= i < |bs| => bs[i].hooks)
  }

  /** All hooks call on. */
  predicate LetsIn(hooks: seq<Hook>) {
    Passed(hooks) == |hooks|
  }

  /** The builder goes on to the next one, or to the batch. */
  predicate Enters(b: Builder) {
    LetsIn(b.hooks) && b.checked == None
  }

  predicate AllEnter(bs: seq<Builder>) {
    forall i :: 0 <= i < |bs| ==> Enters(bs[i])
  }

  /** Number of builders in front of the first that does not enter. */
  function Entered(bs: seq<Builder>): (s: nat)
    ensures s <= |bs|
    ensures forall i :: 0 <= i < s ==> Enters(bs[i])
    ensures s < |bs| ==> !Enters(bs[s])
  {
    if bs == [] || !Enters(bs[0]) then 0 else 1 + Entered(bs[1..])
  }

  /** What comes out of hooks one of which answers itself. */
  function Answered(hooks: seq<Hook>): Option<Error>
    requires !LetsIn(hooks)
  {
    Leave(hooks[..Passed(hooks)], hooks[Passed(hooks)].before.verdict)
  }

  /** The verdict in which the way in ends: that of the batch, or what comes out of the first builder that
      does not enter. */
  function End(bs: seq<Builder>, verdict: Option<Error>): Option<Error> {
    var s := Entered(bs);
    if s == |bs| then verdict
    else if !LetsIn(bs[s].hooks) then Answered(bs[s].hooks)
    else Leave(bs[s].hooks, bs[s].checked)
  }

  /** The way out through the hooks of several builders, the last one first. */
  function Unwind(hs: seq<seq<Hook>>, err: Option<Error>): Option<Error> {
    if hs == [] then err else Leave(hs[0], Unwind(hs[1..], err))
  }

  lemma ChainEnters(bs: seq<Builder>, verdict: Option<Error>)
    requires bs != [] && Enters(bs[0])
    ensures Entered(bs) == Entered(bs[1..]) + 1 && End(bs, verdict) == End(bs[1..], verdict)
    ensures var o, inner := Chain(bs, verdict), Chain(bs[1..], verdict);
            && o.wrote == inner.wrote
            && o.err == Leave(bs[0].hooks, inner.err)
            && (o.done[0] <==> inner.err == None)
            && forall i :: 1 <= i < |bs| ==> o.done[i] == inner.done[i - 1]
  {
  }

  lemma HooksBehind(bs: seq<Builder>, i: nat, s: nat)
    requires 1 <= i <= s <= |bs|
    ensures HooksOf(bs)[i..s] == HooksOf(bs[1..])[i - 1..s - 1]
  {
  }

  /** A builder is done. */
  predicate DoneBy(bs: seq<Builder>, end: Option<Error>, i: nat) {
    i < Entered(bs) && Unwind(HooksOf(bs)[i + 1..Entered(bs)], end) == None
  }

  lemma {:induction false} ChainVerdict(bs: seq<Builder>, verdict: Option<Error>)
    ensures var o := Chain(bs, verdict);
            && (o.wrote <==> Entered(bs) == |bs|)
            && o.err == Unwind(HooksOf(bs)[..Entered(bs)], End(bs, verdict))
  {
    if bs != [] && Enters(bs[0]) {
      var s := Entered(bs);
      ChainVerdict(bs[1..], verdict);
      ChainEnters(bs, verdict);
      HooksBehind(bs, 1, s);
      assert HooksOf(bs)[..s][1..] == HooksOf(bs)[1..s];
      assert HooksOf(bs[1..])[..s - 1] == HooksOf(bs[1..])[0..s - 1];
    }
  }

  lemma {:induction false} DoneExactly(bs: seq<Builder>, verdict: Option<Error>, i: nat)
    requires i < |bs|
    ensures Chain(bs, verdict).done[i] <==> i < Entered(bs) && Chain(bs[i + 1..], verdict).err == None
  {
    if Enters(bs[0]) {
      ChainEnters(bs, verdict);
      if i > 0 {
        DoneExactly(bs[1..], verdict, i - 1);
        assert bs[1..][i..] == bs[i + 1..];
      }
    }
  }

  lemma {:induction false} EnteredBehind(bs: seq<Builder>, verdict: Option<Error>, k: nat)
    requires k <= Entered(bs)
    ensures Entered(bs[k..]) == Entered(bs) - k && End(bs[k..], verdict) == End(bs, verdict)
  {
    if k == 0 {
      assert bs[0..] == bs;
    } else {
      ChainEnters(bs, verdict);
      EnteredBehind(bs[1..], verdict, k - 1);
      assert bs[1..][k - 1..] == bs[k..];
    }
  }

  lemma ChainDone(bs: seq<Builder>, verdict: Option<Error>, i: nat)
    requires i < |bs|
    ensures Chain(bs, verdict).done[i] <==> DoneBy(bs, End(bs, verdict), i)
  {
    DoneExactly(bs, verdict, i);
    if i < Entered(bs) {
      VerdictBehind(bs, verdict, i + 1);
    }
  }

  lemma VerdictBehind(bs: seq<Builder>, verdict: Option<Error>, k: nat)
    requires k <= Entered(bs)
    ensures Chain(bs[k..], verdict).err == Unwind(HooksOf(bs)[k..Entered(bs)], End(bs, verdict))
  {
    EnteredBehind(bs, verdict, k);
    HooksFrom(bs, k, Entered(bs));
    ChainVerdict(bs[k..], verdict);
  }

  lemma HooksFrom(bs: seq<Builder>, k: nat, s: nat)
    requires k <= s <= |bs|
    ensures HooksOf(bs)[k..s] == HooksOf(bs[k..])[..s - k]
  {
  }

  /** The chain in closed form, whatever its hooks do: the batch is written exactly if all builders enter;
      the verdict is the end of the way in, carried out through the hooks of the builders that entered; and
      a builder is done exactly if it entered and a success came out of the builders behind it. */
  lemma ChainCloses(bs: seq<Builder>, verdict: Option<Error>)
    ensures var o := Chain(bs, verdict);
            && (o.wrote <==> Entered(bs) == |bs|)
            && o.err == Unwind(HooksOf(bs)[..Entered(bs)], End(bs, verdict))
            && forall i :: 0 <= i < |bs| ==> (o.done[i] <==> DoneBy(bs, End(bs, verdict), i))
  {
    ChainVerdict(bs, verdict);
    forall i | 0 <= i < |bs|
      ensures Chain(bs, verdict).done[i] <==> DoneBy(bs, End(bs, verdict), i)
    {
      ChainDone(bs, verdict, i);
    }
  }

  /** The batch is written exactly if all checks pass and all hooks call on. */
  lemma {:induction false} WrittenExactly(bs: seq<Builder>, verdict: Option<Error>)
    ensures Chain(bs, verdict).wrote <==> AllValid(bs) && forall i :: 0 <= i < |bs| ==> LetsIn(bs[i].hooks)
    ensures Chain(bs, verdict).wrote <==> AllEnter(bs)
  {
    ChainCloses(bs, verdict);
  }

  /** What comes to the hooks of builder i on the way out, if all of them called on. */
  function Inner(bs: seq<Builder>, verdict: Option<Error>, i: nat): Option<Error>
    requires i < |bs| && LetsIn(bs[i].hooks)
  {
    if bs[i].checked.Some? then bs[i].checked else Chain(bs[i + 1..], verdict).err
  }

  /** The hooks of builder i, which the chain reaches, report a success of their own: they answer with it, or
      make it of a failure. */
  predicate Invents(bs: seq<Builder>, verdict: Option<Error>, i: nat)
    requires i < |bs|
  {
    && i <= Entered(bs)
    && Chain(bs[i..], verdict).err == None
    && (LetsIn(bs[i].hooks) ==> Inner(bs, verdict, i).Some?)
  }

  /** True at k - 1 and false at k. */
  predicate Drops(done: seq<bool>, k: nat)
    requires 1 <= k < |done|
  {
    done[k - 1] && !done[k]
  }

  /** True is followed by true only. */
  predicate IsSuffix(done: seq<bool>) {
    forall i, j :: 0 <= i < j < |done| && done[i] ==> done[j]
  }

  lemma InventsExactly(bs: seq<Builder>, verdict: Option<Error>, k: nat)
    requires 1 <= k < |bs|
    ensures Invents(bs, verdict, k) <==> Drops(Chain(bs, verdict).done, k)
  {
    DoneExactly(bs, verdict, k - 1);
    DoneExactly(bs, verdict, k);
    assert k < Entered(bs) ==> Enters(bs[k]);
  }

  lemma {:induction false} DoneLater(done: seq<bool>, i: nat, j: nat)
    requires i <= j < |done| && done[i] && forall k :: 1 <= k < |done| ==> !Drops(done, k)
    ensures done[j]
    decreases j
  {
    if i < j {
      DoneLater(done, i, j - 1);
      assert !Drops(done, j);
    }
  }

  lemma SuffixSteps(done: seq<bool>)
    ensures IsSuffix(done) <==> forall k :: 1 <= k < |done| ==> !Drops(done, k)
  {
    if forall k :: 1 <= k < |done| ==> !Drops(done, k) {
      forall i, j | 0 <= i < j < |done| && done[i]
        ensures done[j]
      {
        DoneLater(done, i, j);
      }
    }
  }

  /** Done mutations are followed by done ones only, exactly if no builder but the first has hooks that
      report a success of their own. */
  lemma DoneIsSuffix(bs: seq<Builder>, verdict: Option<Error>)
    ensures IsSuffix(Chain(bs, verdict).done) <==> forall k :: 1 <= k < |bs| ==> !Invents(bs, verdict, k)
  {
    var done := Chain(bs, verdict).done;
    forall k | 1 <= k < |bs|
      ensures Invents(bs, verdict, k) <==> Drops(done, k)
    {
      InventsExactly(bs, verdict, k);
    }
    SuffixSteps(done);
  }

  // ---------------------------------------------------------------- which hooks keep the promise

  /** The builders of some hooks, with the verdicts of their checks. */
  function Builders(hs: seq<seq<Hook>>, checks: seq<Option<Error>>): (bs: seq<Builder>)
    requires |hs| == |checks|
    ensures |bs| == |hs| && forall i :: 0 <= i < |bs| ==> bs[i] == Builder(checks[i], hs[i])
  {
    seq(|hs|, i requires 0 <= i < |hs| => Builder(checks[i], hs[i]))
  }

  /** Success is reported only for a batch that was written with success. */
  predicate SuccessIsStored(o: Outcome, verdict: Option<Error>) {
    o.err == None ==> o.wrote && verdict == None
  }

  /** Success is reported exactly for a batch written with success, and then all are done; otherwise none. */
  predicate IsAllOrNothing(o: Outcome, verdict: Option<Error>) {
    && (o.err == None <==> o.wrote && verdict == None)
    && forall i :: 0 <= i < |o.done| ==> (o.done[i] <==> o.err == None)
  }

  /** All hooks of the builders before i call on. */
  predicate Reached(hs: seq<seq<Hook>>, i: nat)
    requires i <= |hs|
  {
    forall j :: 0 <= j < i ==> LetsIn(hs[j])
  }

  /** If the way in ends at builder i, by a hook that answers itself or by a check, then what comes out of
      the builders from j on is a failure. */
  ghost predicate FailsFor(hs: seq<seq<Hook>>, i: nat, j: nat)
    requires j <= i < |hs|
  {
    if !LetsIn(hs[i]) then Unwind(hs[j..i], Answered(hs[i])).Some?
    else forall e: Error :: Unwind(hs[j..i], Leave(hs[i], Some(e))).Some?
  }

  /** A way in that ends early is a failure for the caller. */
  ghost predicate FailsOutside(hs: seq<seq<Hook>>) {
    forall i :: 0 <= i < |hs| && Reached(hs, i) ==> FailsFor(hs, i, 0)
  }

  /** It is one for every builder in front. */
  ghost predicate FailsEverywhere(hs: seq<seq<Hook>>) {
    forall i, j :: 0 <= j <= i < |hs| && Reached(hs, i) ==> FailsFor(hs, i, j)
  }

  predicate SuccessGetsOut(hs: seq<seq<Hook>>) {
    Reached(hs, |hs|) ==> forall i :: 0 <= i < |hs| ==> Leave(hs[i], None) == None
  }

  lemma {:induction false} UnwindLast(hs: seq<seq<Hook>>, err: Option<Error>)
    requires hs != []
    ensures Unwind(hs, err) == Unwind(hs[..|hs| - 1], Leave(hs[|hs| - 1], err))
  {
    if |hs| > 1 {
      UnwindLast(hs[1..], err);
      assert hs[1..][..|hs| - 2] == hs[..|hs| - 1][1..];
    }
  }

  lemma UnwindRange(hs: seq<seq<Hook>>, j: nat, s: nat, err: Option<Error>)
    requires j < s <= |hs|
    ensures Unwind(hs[j..s], err) == Unwind(hs[j..s - 1], Leave(hs[s - 1], err))
  {
    UnwindLast(hs[j..s], err);
    assert hs[j..s][..s - j - 1] == hs[j..s - 1];
  }

  /** Where the way in ends early or in a failing batch, and what comes out of the builders from j on. */
  lemma FailureAt(hs: seq<seq<Hook>>, checks: seq<Option<Error>>, verdict: Option<Error>, j: nat)
    requires |hs| == |checks| && hs != []
    requires var s := Entered(Builders(hs, checks)); j <= s && (s == |hs| ==> verdict.Some?)
    requires var s := Entered(Builders(hs, checks));
             (s < |hs| ==> FailsFor(hs, s, j)) && (s == |hs| && j < s ==> FailsFor(hs, s - 1, j))
    ensures var bs := Builders(hs, checks); Unwind(hs[j..Entered(bs)], End(bs, verdict)).Some?
  {
    var bs := Builders(hs, checks);
    var s := Entered(bs);
    if s == |hs| && j < s {
      UnwindRange(hs, j, s, verdict);
      assert Enters(bs[s - 1]);
    }
  }

  lemma StoredIfFailing(hs: seq<seq<Hook>>, checks: seq<Option<Error>>, verdict: Option<Error>)
    requires |hs| == |checks| && FailsOutside(hs)
    ensures SuccessIsStored(Chain(Builders(hs, checks), verdict), verdict)
  {
    var bs := Builders(hs, checks);
    var s := Entered(bs);
    ChainCloses(bs, verdict);
    assert HooksOf(bs) == hs;
    if hs != [] && !(s == |hs| && verdict == None) {
      FailureAt(hs, checks, verdict, 0);
      assert hs[0..s] == hs[..s];
    }
  }

  /** The checks of n builders of which at most builder i fails. */
  function Only(n: nat, i: nat, check: Option<Error>): (checks: seq<Option<Error>>)
    ensures |checks| == n && forall j :: 0 <= j < n ==> checks[j] == if j == i then check else None
  {
    seq(n, j => if j == i then check else None)
  }

  /** A way in that ends at builder i and not in a failure for builder j: no batch is written, and what comes
      out of the builders from j on is a success. */
  lemma FailureLost(hs: seq<seq<Hook>>, i: nat, j: nat) returns (checks: seq<Option<Error>>)
    requires j <= i < |hs| && Reached(hs, i) && !FailsFor(hs, i, j)
    ensures |checks| == |hs|
    ensures var bs := Builders(hs, checks); Entered(bs) == i && Unwind(hs[j..i], End(bs, None)) == None
  {
    var check: Option<Error> := None;
    if LetsIn(hs[i]) {
      var e: Error :| Unwind(hs[j..i], Leave(hs[i], Some(e))) == None;
      check := Some(e);
    }
    checks := Only(|hs|, i, check);
    var bs := Builders(hs, checks);
    assert forall k :: 0 <= k < i ==> Enters(bs[k]);
    assert !Enters(bs[i]);
    EnteredAt(bs, i);
  }

  lemma {:induction false} EnteredAt(bs: seq<Builder>, i: nat)
    requires i < |bs| && !Enters(bs[i]) && forall k :: 0 <= k < i ==> Enters(bs[k])
    ensures Entered(bs) == i
  {
    if i > 0 {
      EnteredAt(bs[1..], i - 1);
    }
  }

  /** Success is reported only for a batch that was written with success, whatever the checks and the
      database say, if and only if a way in that ends early is a failure for the caller. */
  lemma SuccessMeansStored(hs: seq<seq<Hook>>)
    ensures (forall checks: seq<Option<Error>>, verdict | |checks| == |hs| ::
               SuccessIsStored(Chain(Builders(hs, checks), verdict), verdict)) <==> FailsOutside(hs)
  {
    if FailsOutside(hs) {
      forall checks: seq<Option<Error>>, verdict | |checks| == |hs|
        ensures SuccessIsStored(Chain(Builders(hs, checks), verdict), verdict)
      {
        StoredIfFailing(hs, checks, verdict);
      }
    } else {
      var i :| 0 <= i < |hs| && Reached(hs, i) && !FailsFor(hs, i, 0);
      var checks := FailureLost(hs, i, 0);
      ChainCloses(Builders(hs, checks), None);
      assert HooksOf(Builders(hs, checks)) == hs && hs[0..i] == hs[..i];
      assert !SuccessIsStored(Chain(Builders(hs, checks), None), None);
    }
  }

  lemma {:induction false} UnwindSuccess(hs: seq<seq<Hook>>)
    requires forall i :: 0 <= i < |hs| ==> Leave(hs[i], None) == None
    ensures Unwind(hs, None) == None
  {
    if hs != [] {
      UnwindSuccess(hs[1..]);
    }
  }

  lemma KeptIfFailing(hs: seq<seq<Hook>>, checks: seq<Option<Error>>, verdict: Option<Error>)
    requires |hs| == |checks| && FailsEverywhere(hs) && SuccessGetsOut(hs)
    ensures IsAllOrNothing(Chain(Builders(hs, checks), verdict), verdict)
  {
    var bs := Builders(hs, checks);
    var s := Entered(bs);
    ChainCloses(bs, verdict);
    assert HooksOf(bs) == hs;
    forall j | 0 <= j <= s && hs != []
      ensures Unwind(hs[j..s], End(bs, verdict)) == None <==> s == |hs| && verdict == None
    {
      if s == |hs| && verdict == None {
        UnwindSuccess(hs[j..s]);
      } else {
        FailureAt(hs, checks, verdict, j);
      }
    }
    assert hs[0..s] == hs[..s];
  }

  /** Bulk creation is all or nothing, whatever the checks and the database say, if and only if a way in that
      ends early is a failure for every builder in front and the hooks let the success of the batch through. */
  lemma AllOrNothingExactly(hs: seq<seq<Hook>>)
    ensures (forall checks: seq<Option<Error>>, verdict | |checks| == |hs| ::
               IsAllOrNothing(Chain(Builders(hs, checks), verdict), verdict)) <==>
            FailsEverywhere(hs) && SuccessGetsOut(hs)
  {
    if !FailsEverywhere(hs) {
      var checks := LostFailure(hs);
    } else if !SuccessGetsOut(hs) {
      LostSuccess(hs);
    } else {
      forall checks: seq<Option<Error>>, verdict | |checks| == |hs|
        ensures IsAllOrNothing(Chain(Builders(hs, checks), verdict), verdict)
      {
        KeptIfFailing(hs, checks, verdict);
      }
    }
  }

  lemma LostFailure(hs: seq<seq<Hook>>) returns (checks: seq<Option<Error>>)
    requires !FailsEverywhere(hs)
    ensures |checks| == |hs| && !IsAllOrNothing(Chain(Builders(hs, checks), None), None)
  {
    var i, j :| 0 <= j <= i < |hs| && Reached(hs, i) && !FailsFor(hs, i, j);
    checks := FailureLost(hs, i, j);
    var bs := Builders(hs, checks);
    ChainCloses(bs, None);
    assert HooksOf(bs) == hs;
    if j == 0 {
      assert hs[0..i] == hs[..i];
    } else {
      assert DoneBy(bs, End(bs, None), j - 1);
    }
  }

  lemma LostSuccess(hs: seq<seq<Hook>>)
    requires !SuccessGetsOut(hs)
    ensures !IsAllOrNothing(Chain(Builders(hs, Only(|hs|, 0, None)), None), None)
  {
    var bs := Builders(hs, Only(|hs|, 0, None));
    assert Entered(bs) == |hs| by {
      assert forall i :: 0 <= i < |hs| ==> Enters(bs[i]);
    }
    ChainCloses(bs, None);
    assert HooksOf(bs) == hs;
    var i :| 0 <= i < |hs| && Leave(hs[i], None) != None;
    if Unwind(hs[i + 1..], None) == None {
      assert hs[i..][1..] == hs[i + 1..] && hs[i + 1..] == hs[i + 1..|hs|] && hs[i..] == hs[i..|hs|];
      if i > 0 {
        assert DoneBy(bs, None, i) && !DoneBy(bs, None, i - 1);
      } else {
        assert hs[..|hs|] == hs[0..] == hs;
      }
    } else {
      assert hs[i + 1..] == hs[i + 1..|hs|];
      assert !DoneBy(bs, None, i);
      assert !IsAllOrNothing(Chain(bs, None), None);
    }
  }

  // ---------------------------------------------------------------- small chains

  /** A hook that calls on and turns what comes back into a given verdict. */
  function Answering(verdict: Option<Error>): Hook {
    Hook(Proceed, _ => verdict)
  }

  /** Turning the success of the batch into a failure behind the first builder: an error is reported, though
      the batch is written and both mutations are done. */
  lemma SuccessTurned(e: Error)
    ensures Chain([Builder(None, [Answering(Some(e))]), Builder(None, [])], None) ==
            Outcome(Some(e), true, [true, true])
  {
    var bs := [Builder(None, [Answering(Some(e))]), Builder(None, [])];
    assert bs[1..] == [bs[1]] && bs[1..][1..] == [];
    assert Chain(bs[1..], None) == Outcome(None, true, [true]);
    OneHook(Some(e), None);
  }

  /** Hiding a failed check of the second builder: success is reported and the first mutation is done, though
      nothing is written. */
  lemma FailureHidden(e: Error)
    ensures Chain([Builder(None, []), Builder(Some(e), [Answering(None)])], None) ==
            Outcome(None, false, [true, false])
  {
    var bs := [Builder(None, []), Builder(Some(e), [Answering(None)])];
    assert bs[1..] == [bs[1]];
    OneHook(None, Some(e));
    assert Falses(1) == [false];
    assert Chain(bs[1..], None) == Outcome(None, false, [false]);
  }

  /** Answering with a success in place of the second builder: no check fails, success is reported and the
      first mutation is done, though nothing is written. */
  lemma SuccessAnswered(after: Option<Error> -> Option<Error>)
    ensures Chain([Builder(None, []), Builder(None, [Hook(Stop(None), after)])], None) ==
            Outcome(None, false, [true, false])
  {
    var bs := [Builder(None, []), Builder(None, [Hook(Stop(None), after)])];
    assert bs[1..] == [bs[1]];
    assert Falses(1) == [false];
    assert Chain(bs[1..], None) == Outcome(None, false, [false]);
  }

  lemma OneHook(answer: Option<Error>, err: Option<Error>)
    ensures LetsIn([Answering(answer)]) && Leave([Answering(answer)], err) == answer
  {
    var hooks := [Answering(answer)];
    assert hooks[1..] == [];
  }

  // ---------------------------------------------------------------- the objects

  /** What createSpec builds from a mutation: the columns to write, the node to hand out. */
  datatype CreateSpec = CreateSpec(columns: Fields)
  datatype Event = Event(columns: Fields)

  function Specs(all: seq<Fields>): (r: seq<CreateSpec>)
    ensures |r| == |all| && forall i :: 0 <= i < |r| ==> r[i] == CreateSpec(all[i])
  {
    seq(|all|, i requires 0 <= i < |all| => CreateSpec(all[i]))
  }

  function Events(all: seq<Fields>): (r: seq<Event>)
    ensures |r| == |all| && forall i :: 0 <= i < |r| ==> r[i] == Event(all[i])
  {
    seq(|all|, i requires 0 <= i < |all| => Event(all[i]))
  }

  /** What a hook does with the fields of the mutation it is given: set some and call on, or answer. */
  datatype Act = CallNext(fields: Fields) | Answer(verdict: Option<Error>)

  datatype MutationHook = MutationHook(act: Fields -> Act, after: Option<Error> -> Option<Error>)

  /** What hooks do in turn to a mutation with given fields, up to the first one that answers. */
  function Acts(hooks: seq<MutationHook>, f: Fields): seq<Hook> {
    if hooks == [] then [] else
      match hooks[0].act(f)
      case CallNext(g) => [Hook(Proceed, hooks[0].after)] + Acts(hooks[1..], g)
      case Answer(verdict) => [Hook(Stop(verdict), hooks[0].after)]
  }

  /** The fields it has then. */
  function Settled(hooks: seq<MutationHook>, f: Fields): Fields {
    if hooks == [] then f else
      match hooks[0].act(f)
      case CallNext(g) => Settled(hooks[1..], g)
      case Answer(_) => f
  }

  /** Hooks that have called on. */
  function Calling(hooks: seq<MutationHook>): (r: seq<Hook>)
    ensures |r| == |hooks| && forall i :: 0 <= i < |r| ==> r[i] == Hook(Proceed, hooks[i].after)
  {
    seq(|hooks|, i requires 0 <= i < |hooks| => Hook(Proceed, hooks[i].after))
  }

  lemma CallingOneMore(hooks: seq<MutationHook>, k: nat, more: seq<Hook>)
    requires k < |hooks|
    ensures Calling(hooks[..k]) + ([Hook(Proceed, hooks[k].after)] + more) == Calling(hooks[..k + 1]) + more
  {
    assert Calling(hooks[..k + 1]) == Calling(hooks[..k]) + [Hook(Proceed, hooks[k].after)];
  }

  lemma {:induction false} PassedCalling(hooks: seq<Hook>, k: nat)
    requires k <= |hooks| && forall i :: 0 <= i < k ==> hooks[i].before.Proceed?
    requires k < |hooks| ==> hooks[k].before.Stop?
    ensures Passed(hooks) == k
  {
    if k > 0 {
      PassedCalling(hooks[1..], k - 1);
    }
  }

  class EventMutation {
    var fields: Fields
    var id: Option<Value>
    var done: bool

    constructor (fields: Fields)
      ensures this.fields == fields && id == None && !done
    {
      this.fields, id, done := fields, None, false;
    }
  }

  class EventCreate {
    var mutation: EventMutation
    const hooks: seq<MutationHook>

    constructor (mutation: EventMutation, hooks: seq<MutationHook>)
      ensures this.mutation == mutation && this.hooks == hooks
    {
      this.mutation, this.hooks := mutation, hooks;
    }

    /** The hooks on the way in: k of them call on, and the next one answers if there is one. */
    method WayIn(m: EventMutation) returns (k: nat, answer: Option<Option<Error>>)
      modifies m`fields
      ensures m.fields == Settled(hooks, old(m.fields))
      ensures k <= |hooks| && (answer == None <==> k == |hooks|)
      ensures Acts(hooks, old(m.fields)) ==
              Calling(hooks[..k]) + if answer.Some? then [Hook(Stop(answer.value), hooks[k].after)] else []
    {
      k, answer := 0, None;
      while k < |hooks| && answer == None
        invariant k <= |hooks| && (answer.Some? ==> k < |hooks|)
        invariant answer == None ==> Settled(hooks, old(m.fields)) == Settled(hooks[k..], m.fields)
        invariant answer == None ==> Acts(hooks, old(m.fields)) == Calling(hooks[..k]) + Acts(hooks[k..], m.fields)
        invariant answer.Some? ==>
                    && m.fields == Settled(hooks, old(m.fields))
                    && Acts(hooks, old(m.fields)) ==
                       Calling(hooks[..k]) + [Hook(Stop(answer.value), hooks[k].after)]
        decreases |hooks| - k, answer == None
      {
        assert hooks[k..][1..] == hooks[k + 1..];
        match hooks[k].act(m.fields) {
          case CallNext(fields) =>
            CallingOneMore(hooks, k, Acts(hooks[k + 1..], fields));
            m.fields := fields;
            k := k + 1;
          case Answer(verdict) =>
            answer := Some(verdict);
        }
      }
    }

    /** The first k hooks on the way out. */
    method WayOut(k: nat, inner: Option<Error>) returns (err: Option<Error>)
      requires k <= |hooks|
      ensures err == Leave(Calling(hooks[..k]), inner)
    {
      err := inner;
      var j := k;
      ghost var calling := Calling(hooks[..k]);
      while j > 0
        invariant 0 <= j <= k == |calling| && err == Leave(calling[j..], inner)
      {
        j := j - 1;
        assert calling[j..][1..] == calling[j + 1..];
        err := hooks[j].after(err);
      }
      assert calling[0..] == calling;
    }

    method Defaults(created: int, updated: int)
      modifies mutation`fields
      ensures Defaulted(old(mutation.fields), mutation.fields, created, updated)
    {
      var m := mutation;
      if "status" !in m.fields {
        m.fields := m.fields["status" := CONFIRMED];
      }
      if "all_day" !in m.fields {
        m.fields := m.fields["all_day" := Flag(false)];
      }
      if "created" !in m.fields {
        m.fields := m.fields["created" := Time(created)];
      }
      if "updated" !in m.fields {
        m.fields := m.fields["updated" := Time(updated)];
      }
    }
  }

  /** The database: it accepts a batch or gives an error, and logs what it was asked to write. */
  class Driver {
    const answer: seq<CreateSpec> -> Option<Error>
    var batches: seq<seq<CreateSpec>>

    constructor (answer: seq<CreateSpec> -> Option<Error>)
      ensures batches == []
    {
      this.answer := answer;
      batches := [];
    }

    method BatchCreate(specs: seq<CreateSpec>) returns (err: Option<Error>)
      modifies this
      ensures batches == old(batches) + [specs] && err == answer(specs)
    {
      batches := batches + [specs];
      err := answer(specs);
    }
  }

  class EventCreateBulk {
    const err: Option<Error>
    const builders: seq<EventCreate>
    const driver: Driver

    constructor (err: Option<Error>, builders: seq<EventCreate>, driver: Driver)
      ensures this.err == err && this.builders == builders && this.driver == driver
    {
      this.err, this.builders, this.driver := err, builders, driver;
    }

    /** Builders over the distinct mutations `ms`. */
    ghost predicate Over(ms: seq<EventMutation>)
      reads this, builders
    {
      && |ms| == |builders|
      && (forall i, j :: 0 <= i < j < |ms| ==> ms[i] != ms[j])
      && (forall i :: 0 <= i < |ms| ==> builders[i].mutation == ms[i])
    }

    /** The fields that the hooks leave of given ones. */
    ghost function Finals(all: seq<Fields>): (r: seq<Fields>)
      requires |all| == |builders|
      ensures |r| == |builders|
      ensures forall i :: 0 <= i < |r| ==> r[i] == Settled(builders[i].hooks, all[i])
    {
      seq(|builders|, i requires 0 <= i < |builders| => Settled(builders[i].hooks, all[i]))
    }

    /** The builders of the chain, given the fields of their mutations: their hooks act on these, and the
        checks see what the hooks leave. */
    ghost function Chained(all: seq<Fields>): (r: seq<Builder>)
      requires |all| == |builders|
      ensures |r| == |builders|
      ensures forall i :: 0 <= i < |r| ==> r[i] == Builder(Check(Finals(all)[i]), Acts(builders[i].hooks, all[i]))
    {
      seq(|builders|, i requires 0 <= i < |builders| =>
        Builder(Check(Finals(all)[i]), Acts(builders[i].hooks, all[i])))
    }

    /** The builders before i are through their hooks and checks, and their specifications are there; the
        mutations behind builder i hold their fields in `all`. */
    ghost predicate Around(i: nat, ms: seq<EventMutation>, all: seq<Fields>, specs: array<CreateSpec>,
                           nodes: array<Event>)
      reads this, builders, ms, specs, nodes
    {
      && Over(ms)
      && i <= |builders| == |all| == specs.Length == nodes.Length
      && (forall j :: i < j < |ms| ==> ms[j].fields == all[j])
      && (forall j :: 0 <= j < i ==> specs[j] == CreateSpec(Finals(all)[j]) && nodes[j] == Event(Finals(all)[j]))
    }

    /** The same, builder i not having been called. */
    ghost predicate Ready(i: nat, ms: seq<EventMutation>, all: seq<Fields>, specs: array<CreateSpec>,
                          nodes: array<Event>)
      reads this, builders, ms, specs, nodes
    {
      Around(i, ms, all, specs, nodes) && (i < |ms| ==> ms[i].fields == all[i])
    }

    ghost function Out(i: nat, all: seq<Fields>): Outcome
      requires i <= |builders| == |all|
    {
      Chain(Chained(all)[i..], driver.answer(Specs(Finals(all))))
    }

    /** Whether the chain from builder i on marks mutation j done. */
    ghost predicate DoneAt(i: nat, all: seq<Fields>, j: nat)
      requires i <= |builders| == |all| && j < |builders|
    {
      j >= i && Out(i, all).done[j - i]
    }

    /** One step of the chain, once the hooks on the way in have called on. */
    lemma OutStep(i: nat, all: seq<Fields>)
      requires i < |builders| == |all| && LetsIn(Chained(all)[i].hooks)
      ensures var o, hooks, check := Out(i, all), Chained(all)[i].hooks, Chained(all)[i].checked;
              if check != None then
                && o.err == Leave(hooks, check) && !o.wrote
                && forall j :: 0 <= j < |builders| ==> !DoneAt(i, all, j)
              else
                var later := Out(i + 1, all);
                && o.err == Leave(hooks, later.err) && o.wrote == later.wrote
                && forall j :: 0 <= j < |builders| ==>
                     (DoneAt(i, all, j) <==> DoneAt(i + 1, all, j) || (j == i && later.err == None))
    {
      assert Chained(all)[i..][1..] == Chained(all)[i + 1..];
    }

    /** A hook of builder i answers, behind k that called on. */
    lemma OutAnswered(i: nat, all: seq<Fields>, k: nat, hook: Hook)
      requires i < |builders| == |all| && k < |builders[i].hooks| && hook.before.Stop?
      requires Acts(builders[i].hooks, all[i]) == Calling(builders[i].hooks[..k]) + [hook]
      ensures Out(i, all) ==
              Outcome(Leave(Calling(builders[i].hooks[..k]), hook.before.verdict), false, Falses(|builders| - i))
    {
      var hooks := Chained(all)[i].hooks;
      PassedCalling(hooks, k);
      assert hooks[..k] == Calling(builders[i].hooks[..k]);
    }

    lemma AllCalled(i: nat, all: seq<Fields>)
      requires i < |builders| == |all| && Acts(builders[i].hooks, all[i]) == Calling(builders[i].hooks)
      ensures LetsIn(Chained(all)[i].hooks)
    {
      PassedCalling(Chained(all)[i].hooks, |builders[i].hooks|);
    }

    /** The mutator of builder i: hooks on the way in, the core if all call on, hooks on the way out. */
    method Mutate(i: nat, m: EventMutation, specs: array<CreateSpec>, nodes: array<Event>,
                  ghost ms: seq<EventMutation>, ghost all: seq<Fields>)
      returns (err: Option<Error>)
      requires Ready(i, ms, all, specs, nodes) && i < |builders| && m == ms[i]
      modifies ms, builders`mutation, driver, specs, nodes
      ensures Over(ms) && (Out(i, all).wrote ==> Ready(|builders|, ms, all, specs, nodes))
      ensures err == Out(i, all).err
      ensures driver.batches == old(driver.batches) + if Out(i, all).wrote then [Specs(Finals(all))] else []
      ensures forall j :: 0 <= j < |ms| ==> ms[j].done == (old(ms[j].done) || DoneAt(i, all, j))
      decreases |builders| - i, 1
    {
      var builder := builders[i];
      var k, answer := builder.WayIn(m);
      if answer.Some? {
        OutAnswered(i, all, k, Hook(Stop(answer.value), builder.hooks[k].after));
        err := answer.value;
      } else {
        assert builder.hooks[..k] == builder.hooks;
        AllCalled(i, all);
        err := Core(i, m, specs, nodes, ms, all);
      }
      err := builder.WayOut(k, err);
    }

    /** The builder's own part of its mutator. */
    method Core(i: nat, m: EventMutation, specs: array<CreateSpec>, nodes: array<Event>,
                ghost ms: seq<EventMutation>, ghost all: seq<Fields>)
      returns (err: Option<Error>)
      requires Around(i, ms, all, specs, nodes) && i < |builders| && m == ms[i] && m.fields == Finals(all)[i]
      requires LetsIn(Chained(all)[i].hooks)
      modifies ms, builders`mutation, driver, specs, nodes
      ensures Over(ms) && (Out(i, all).wrote ==> Ready(|builders|, ms, all, specs, nodes))
      ensures Leave(Chained(all)[i].hooks, err) == Out(i, all).err
      ensures driver.batches == old(driver.batches) + if Out(i, all).wrote then [Specs(Finals(all))] else []
      ensures forall j :: 0 <= j < |ms| ==> ms[j].done == (old(ms[j].done) || DoneAt(i, all, j))
      decreases |builders| - i, 0
    {
      err := Build(i, m, specs, nodes, ms, all);
      OutStep(i, all);
      if err == None {
        err := Onward(i, m, specs, nodes, ms, all);
      }
    }

    /** On to the next builder, or to the batch; on success the mutation is done. */
    method Onward(i: nat, m: EventMutation, specs: array<CreateSpec>, nodes: array<Event>,
                  ghost ms: seq<EventMutation>, ghost all: seq<Fields>)
      returns (err: Option<Error>)
      requires i < |builders| && Ready(i + 1, ms, all, specs, nodes) && m == ms[i]
      modifies ms, builders`mutation, driver, specs, nodes
      ensures Over(ms) && (Out(i + 1, all).wrote ==> Ready(|builders|, ms, all, specs, nodes))
      ensures err == Out(i + 1, all).err
      ensures driver.batches == old(driver.batches) + if Out(i + 1, all).wrote then [Specs(Finals(all))] else []
      ensures forall j :: 0 <= j < |ms| ==>
                ms[j].done == (old(ms[j].done) || DoneAt(i + 1, all, j) || (j == i && err == None))
      decreases |builders| - i - 1, 3
    {
      err := CallNext(i + 1, specs, nodes, ms, all);
      if err == None {
        MarkDone(m, nodes[i]);
      }
    }

    method MarkDone(m: EventMutation, node: Event)
      modifies m`id, m`done
      ensures m.done
    {
      m.id := if "id" in node.columns then Some(node.columns["id"]) else Some(Text(""));
      m.done := true;
    }

    /** Check, then put the mutation into the builder and its specification and node into the slices. */
    method Build(i: nat, m: EventMutation, specs: array<CreateSpec>, nodes: array<Event>,
                 ghost ms: seq<EventMutation>, ghost all: seq<Fields>)
      returns (err: Option<Error>)
      requires Around(i, ms, all, specs, nodes) && i < |builders| && m == ms[i] && m.fields == Finals(all)[i]
      modifies builders`mutation, specs, nodes
      ensures Over(ms) && err == Check(Finals(all)[i])
      ensures err == None ==> Ready(i + 1, ms, all, specs, nodes)
    {
      var builder := builders[i];
      err := Check(builder.mutation.fields);
      if err == None {
        builder.mutation := m;
        nodes[i], specs[i] := Event(m.fields), CreateSpec(m.fields);
      }
    }

    /** Call the next builder's mutator, or write the batch behind the last one. */
    method CallNext(i: nat, specs: array<CreateSpec>, nodes: array<Event>,
                    ghost ms: seq<EventMutation>, ghost all: seq<Fields>)
      returns (err: Option<Error>)
      requires Ready(i, ms, all, specs, nodes) && i > 0
      modifies ms, builders`mutation, driver, specs, nodes
      ensures Over(ms) && (Out(i, all).wrote ==> Ready(|builders|, ms, all, specs, nodes))
      ensures err == Out(i, all).err
      ensures driver.batches == old(driver.batches) + if Out(i, all).wrote then [Specs(Finals(all))] else []
      ensures forall j :: 0 <= j < |ms| ==> ms[j].done == (old(ms[j].done) || DoneAt(i, all, j))
      decreases |builders| - i, 2
    {
      if i < |builders| {
        err := Mutate(i, builders[i].mutation, specs, nodes, ms, all);
      } else {
        assert specs[..] == Specs(Finals(all));
        err := driver.BatchCreate(specs[..]);
      }
    }

    /** All builders get their defaults before the first one is checked; `clock` gives the readings of the
        clock for every builder. */
    method DefaultAll(clock: nat -> (int, int), ghost ms: seq<EventMutation>) returns (ghost all: seq<Fields>)
      requires Over(ms)
      modifies ms`fields
      ensures Over(ms) && |all| == |ms|
      ensures forall i :: 0 <= i < |ms| ==>
                ms[i].fields == all[i] && Defaulted(old(ms[i].fields), all[i], clock(i).0, clock(i).1)
    {
      all := [];
      for i := 0 to |builders|
        invariant Over(ms) && |all| == i
        invariant forall j :: 0 <= j < i ==>
                    ms[j].fields == all[j] && Defaulted(old(ms[j].fields), all[j], clock(j).0, clock(j).1)
        invariant forall j :: i <= j < |ms| ==> ms[j].fields == old(ms[j].fields)
      {
        builders[i].Defaults(clock(i).0, clock(i).1);
        all := all + [ms[i].fields];
      }
    }

    /** What Save amounts to once the mutations hold the fields `all`. */
    ghost function Whole(all: seq<Fields>): Outcome
      requires |all| == |builders|
    {
      if |builders| == 0 then Outcome(None, false, []) else Out(0, all)
    }

    /** A batch is written exactly if there are builders, all their hooks call on, and what these leave of
        every event is acceptable. */
    lemma WrittenIfAccepted(all: seq<Fields>)
      requires |all| == |builders|
      ensures Whole(all).wrote <==>
              && |builders| > 0
              && forall i :: 0 <= i < |builders| ==>
                   Accepted(Finals(all)[i]) && LetsIn(Acts(builders[i].hooks, all[i]))
    {
      var bs := Chained(all);
      assert bs[0..] == bs;
      WrittenExactly(bs, driver.answer(Specs(Finals(all))));
      forall i | 0 <= i < |builders|
        ensures Enters(bs[i]) <==> Accepted(Finals(all)[i]) && LetsIn(Acts(builders[i].hooks, all[i]))
      {
        CheckAccepts(Finals(all)[i]);
      }
    }

    /** Run the chain from its first builder. */
    method Start(ghost ms: seq<EventMutation>, ghost all: seq<Fields>) returns (err: Option<Error>, nodes: seq<Event>)
      requires Over(ms) && |all| == |ms| && forall i :: 0 <= i < |ms| ==> ms[i].fields == all[i]
      modifies ms, builders`mutation, driver
      ensures Over(ms)
      ensures err == Whole(all).err
      ensures driver.batches == old(driver.batches) + if Whole(all).wrote then [Specs(Finals(all))] else []
      ensures forall i :: 0 <= i < |ms| ==> ms[i].done == (old(ms[i].done) || Whole(all).done[i])
      ensures err == None && Whole(all).wrote ==> nodes == Events(Finals(all))
    {
      var n := |builders|;
      nodes := [];
      if n == 0 {
        err := None;
      } else {
        var specs, slots := new CreateSpec[n](_ => CreateSpec(map[])), new Event[n](_ => Event(map[]));
        err := Mutate(0, builders[0].mutation, specs, slots, ms, all);
        assert forall i :: 0 <= i < |ms| ==> (DoneAt(0, all, i) <==> Out(0, all).done[i]);
        if err == None {
          nodes := slots[..];
        }
      }
    }

    /** Save: the verdict, the batches written and the mutations marked done are those of the chain over the
        defaulted builders; the batch holds, and on success the nodes are, what the hooks leave of all of
        them, in order. */
    method Save(clock: nat -> (int, int), ghost ms: seq<EventMutation>)
      returns (err: Option<Error>, nodes: seq<Event>, ghost all: seq<Fields>)
      requires Over(ms)
      modifies ms, builders`mutation, driver
      ensures Over(ms)
      ensures this.err != None ==> err == this.err && driver.batches == old(driver.batches)
      ensures this.err == None ==> |all| == |ms|
      ensures this.err == None ==>
                && (forall i :: 0 <= i < |ms| ==> Defaulted(old(ms[i].fields), all[i], clock(i).0, clock(i).1))
                && err == Whole(all).err
                && driver.batches == old(driver.batches) + (if Whole(all).wrote then [Specs(Finals(all))] else [])
                && (forall i :: 0 <= i < |ms| ==> ms[i].done == (old(ms[i].done) || Whole(all).done[i]))
                && (err == None && Whole(all).wrote ==> nodes == Events(Finals(all)))
      ensures driver.batches != old(driver.batches) ==>
                |all| == |builders| && forall i :: 0 <= i < |all| ==> Accepted(Finals(all)[i])
    {
      nodes, all := [], [];
      if this.err != None {
        err := this.err;
        return;
      }
      all := DefaultAll(clock, ms);
      err, nodes := Start(ms, all);
      WrittenIfAccepted(all);
    }
  }
}
