/** The binary search store used by many goroutines at once, one step at a time.

    Every call to Get or Put is a goroutine of its own with its own search window; the read-write mutex is a count of
    readers and a writer flag. The scheduler is the sequence of events, and may be anything. */
module Concurrent {
  import opened Wrappers
  import opened Lexical
  import opened Urls
  import opened Storage
  import opened SortedIndex

  datatype Op = Get(input: Url) | Put(from: Url, to: Url)
  {
    function Key(): string {
      if Get? then input.String() else from.String()
    }
  }

  datatype Answer = Hit(to: Url) | Missing | Stored

  /** How far a call has got. `Locked` to `Unlocking` are the states in which it holds the mutex. */
  datatype Pc =
    | Waiting
    | Locked
    | Probing(lower: int, upper: int, next: int)
    | Decided(found: bool, pos: int)
    | Unlocking(answer: Answer)
    | Unlocked(answer: Answer)

  datatype Call = Call(op: Op, pc: Pc)

  datatype State = State(idx: seq<Tuple>, readers: nat, writing: bool, calls: map<nat, Call>, issued: nat)

  /** A call arrives, makes one step, or returns to its caller. */
  datatype Event = Invoke(id: nat, op: Op) | Step(id: nat) | Respond(id: nat, answer: Answer)

  const START := State([], 0, false, map[], 0)

  function Moved(s: State, id: nat, pc: Pc): State
    requires id in s.calls
  {
    s.(calls := s.calls[id := s.calls[id].(pc := pc)])
  }

  /** One turn of the search loop; None where Go would panic on an index out of range. */
  function Probe(idx: seq<Tuple>, key: string, lower: int, upper: int, next: int): Option<Pc> {
    if !(0 <= next < |idx|) then None
    else if key == Key(idx[next]) then Some(Decided(true, next))
    else if upper - lower == 1 then Some(Decided(false, lower))
    else
      var half := (upper - lower) / 2;
      var (l, u) := if Less(Key(idx[next]), key) then (lower + half, upper) else (lower, upper - half);
      Some(Probing(l, u, l + (u - l) / 2))
  }

  /** The next step of a call, or None if it has to wait, or has finished, or would panic. */
  function Advance(s: State, id: nat): Option<State>
    requires id in s.calls
  {
    var op := s.calls[id].op;
    match s.calls[id].pc
    case Waiting =>
      if s.writing || (op.Put? && s.readers > 0) then None
      else if op.Get? then Some(Moved(s, id, Locked).(readers := s.readers + 1))
      else Some(Moved(s, id, Locked).(writing := true))
    case Locked =>
      if s.idx != [] then Some(Moved(s, id, Probing(0, |s.idx|, |s.idx| / 2)))
      else if op.Get? then Some(Moved(s, id, Decided(false, 0)))
      else Some(Moved(s, id, Unlocking(Stored)).(idx := [Tuple(op.from, op.to)]))
    case Probing(lower, upper, next) =>
      var pc := Probe(s.idx, op.Key(), lower, upper, next);
      if pc.None? then None else Some(Moved(s, id, pc.value))
    case Decided(found, pos) =>
      if op.Get? && !found then Some(Moved(s, id, Unlocking(Missing)))
      else if !(0 <= pos < |s.idx|) then None
      else if op.Get? then Some(Moved(s, id, Unlocking(Hit(s.idx[pos].to))))
      else Some(Moved(s, id, Unlocking(Stored)).(idx := Place(s.idx, found, pos, op.from, op.to)))
    case Unlocking(answer) =>
      if op.Put? then Some(Moved(s, id, Unlocked(answer)).(writing := false))
      else if s.readers == 0 then None
      else Some(Moved(s, id, Unlocked(answer)).(readers := s.readers - 1))
    case Unlocked(_) => None
  }

  function Next(s: State, e: Event): Option<State> {
    match e
    case Invoke(id, op) =>
      if id != s.issued then None
      else Some(s.(calls := s.calls[id := Call(op, Waiting)], issued := id + 1))
    case Step(id) =>
      if id !in s.calls then None else Advance(s, id)
    case Respond(id, answer) =>
      if id !in s.calls || s.calls[id].pc != Unlocked(answer) then None
      else Some(s.(calls := s.calls - {id}))
  }

  /** The state after a sequence of events, if each of them was possible. */
  function Exec(es: seq<Event>): Option<State> {
    if es == [] then Some(START)
    else
      var before := Exec(es[..|es| - 1]);
      if before.None? then None else Next(before.value, es[|es| - 1])
  }

  // ---------------------------------------------------------------------------------------------
  // What it means to be linearizable
  // ---------------------------------------------------------------------------------------------

  datatype Entry = Entry(id: nat, op: Op, answer: Answer)

  /** The map after a sequence of whole operations, one at a time. */
  function Replay(lin: seq<Entry>): Table {
    if lin == [] then map[]
    else
      var before, last := Replay(lin[..|lin| - 1]), lin[|lin| - 1].op;
      if last.Put? then before[last.from.String() := last.to] else before
  }

  /** What one whole operation on a map answers. */
  function AnswerOn(table: Table, op: Op): Answer {
    if op.Put? then Stored
    else if op.input.String() in table then Hit(table[op.input.String()]) else Missing
  }

  ghost predicate Legal(lin: seq<Entry>) {
    forall i :: 0 <= i < |lin| ==> lin[i].answer == AnswerOn(Replay(lin[..i]), lin[i].op)
  }

  ghost predicate OncePerCall(lin: seq<Entry>) {
    forall p, q :: 0 <= p < q < |lin| ==> lin[p].id != lin[q].id
  }

  ghost predicate Has(lin: seq<Entry>, id: nat) {
    exists q :: 0 <= q < |lin| && lin[q].id == id
  }

  /** Operation a comes before operation b wherever both are in the order. */
  ghost predicate Precedes(lin: seq<Entry>, a: nat, b: nat) {
    forall p, q | 0 <= p < |lin| && 0 <= q < |lin| && lin[p].id == a && lin[q].id == b :: p < q
  }

  /** A call that returned before another arrived comes before it. */
  ghost predicate KeepsRealTime(es: seq<Event>, lin: seq<Entry>) {
    forall i, j | 0 <= i < j < |es| && es[i].Respond? && es[j].Invoke? :: Precedes(lin, es[i].id, es[j].id)
  }

  /** Some entry of the order is for this call, with this answer. */
  ghost predicate Answered(lin: seq<Entry>, id: nat, answer: Answer) {
    exists q :: 0 <= q < |lin| && lin[q].id == id && lin[q].answer == answer
  }

  /** `lin` orders the operations of the run one at a time: it only has operations that arrived, each once; it has
      every operation that returned, with the answer that was returned; on a plain map it gives those answers; and it
      never reorders operations that did not overlap. */
  ghost predicate Linearizes(es: seq<Event>, lin: seq<Entry>) {
    && Legal(lin)
    && OncePerCall(lin)
    && (forall q :: 0 <= q < |lin| ==> Invoke(lin[q].id, lin[q].op) in es)
    && (forall i :: 0 <= i < |es| && es[i].Respond? ==> Answered(lin, es[i].id, es[i].answer))
    && KeepsRealTime(es, lin)
  }

  ghost predicate Linearizable(es: seq<Event>, end: Table) {
    exists lin :: Linearizes(es, lin) && Replay(lin) == end
  }

  /** The last Put for a key among these operations. */
  ghost predicate LastPut(lin: seq<Entry>, p: int, key: string) {
    && 0 <= p < |lin| && lin[p].op.Put? && lin[p].op.from.String() == key
    && forall q :: p < q < |lin| && lin[q].op.Put? ==> lin[q].op.from.String() != key
  }

  lemma {:induction false} ReplayHasLastPut(lin: seq<Entry>, key: string)
    ensures forall p :: LastPut(lin, p, key) ==> key in Replay(lin) && Replay(lin)[key] == lin[p].op.to
    ensures key in Replay(lin) ==> exists p :: LastPut(lin, p, key)
  {
    if lin != [] {
      var n := |lin| - 1;
      var before := lin[..n];
      ReplayHasLastPut(before, key);
      if lin[n].op.Put? && lin[n].op.from.String() == key {
        assert LastPut(lin, n, key);
      } else {
        forall p ensures LastPut(lin, p, key) <==> LastPut(before, p, key) {
          assert forall q :: 0 <= q < n ==> before[q] == lin[q];
          assert LastPut(before, p, key) ==> forall q :: p < q < |lin| && q != n ==> lin[q] == before[q];
        }
      }
    }
  }

  /** What the order promises a caller: a Get finds the destination of the last Put for its URL before it, or nothing if
      there is none. */
  lemma GetSeesLastPut(lin: seq<Entry>, q: int)
    requires Legal(lin) && 0 <= q < |lin|
    ensures lin[q].op.Put? ==> lin[q].answer == Stored
    ensures lin[q].op.Get? ==>
      && (forall p :: LastPut(lin[..q], p, lin[q].op.input.String()) ==> lin[q].answer == Hit(lin[p].op.to))
      && ((forall p :: !LastPut(lin[..q], p, lin[q].op.input.String())) ==> lin[q].answer == Missing)
  {
    if lin[q].op.Get? {
      ReplayHasLastPut(lin[..q], lin[q].op.input.String());
    }
  }

  // ---------------------------------------------------------------------------------------------
  // The invariant
  // ---------------------------------------------------------------------------------------------

  predicate Holds(c: Call) {
    !c.pc.Waiting? && !c.pc.Unlocked?
  }

  function Readers(calls: map<nat, Call>): set<nat> {
    set id | id in calls && calls[id].op.Get? && Holds(calls[id])
  }

  function Writers(calls: map<nat, Call>): set<nat> {
    set id | id in calls && calls[id].op.Put? && Holds(calls[id])
  }

  /** The mutex counts what it should, and a writer is alone. */
  ghost predicate Exclusive(s: State) {
    && s.readers == |Readers(s.calls)|
    && |Writers(s.calls)| == (if s.writing then 1 else 0)
    && (s.writing ==> s.readers == 0)
  }

  /** The local variables of a call are right about the index as it is now. */
  ghost predicate LocalsHold(idx: seq<Tuple>, c: Call) {
    match c.pc
    case Probing(lower, upper, next) => Window(Keys(idx), c.op.Key(), lower, upper, next)
    case Decided(found, pos) =>
      if idx == [] then c.op.Get? && !found else Located(idx, c.op.Key(), found, pos)
    case _ => true
  }

  ghost predicate AllLocalsHold(s: State) {
    forall id :: id in s.calls ==> LocalsHold(s.idx, s.calls[id])
  }

  ghost predicate StateHolds(s: State) {
    Ascending(Keys(s.idx)) && Exclusive(s) && AllLocalsHold(s)
  }

  /** A call has taken effect exactly when it has its answer. */
  ghost predicate TookEffect(s: State, lin: seq<Entry>) {
    forall id :: id in s.calls ==>
      match s.calls[id].pc
      case Unlocking(answer) => Entry(id, s.calls[id].op, answer) in lin
      case Unlocked(answer) => Entry(id, s.calls[id].op, answer) in lin
      case _ => !Has(lin, id)
  }

  /** Call numbers are used once. */
  ghost predicate Numbered(s: State, es: seq<Event>) {
    && (forall id :: id in s.calls ==> id < s.issued && Invoke(id, s.calls[id].op) in es)
    && (forall i :: 0 <= i < |es| ==> es[i].id < s.issued)
  }

  ghost predicate Invariant(s: State, es: seq<Event>, lin: seq<Entry>) {
    && StateHolds(s)
    && Contents(s.idx) == Replay(lin)
    && TookEffect(s, lin)
    && Numbered(s, es)
    && Linearizes(es, lin)
  }

  // ---------------------------------------------------------------------------------------------
  // Steps keep the mutex exclusive
  // ---------------------------------------------------------------------------------------------

  lemma Alone(s: State, id: nat)
    requires Exclusive(s)
    requires id in s.calls && s.calls[id].op.Put? && Holds(s.calls[id])
    ensures s.writing
    ensures forall other :: other in s.calls && other != id ==> !Holds(s.calls[other])
  {
    var writers, readers := Writers(s.calls), Readers(s.calls);
    assert id in writers;
    assert |writers - {id}| == |writers| - 1;
    forall other | other in s.calls && other != id ensures !Holds(s.calls[other]) {
      assert other !in writers - {id} && other !in readers;
    }
  }

  lemma HolderIsCounted(s: State, id: nat)
    requires Exclusive(s)
    requires id in s.calls && Holds(s.calls[id])
    ensures if s.calls[id].op.Get? then s.readers > 0 && !s.writing else s.writing
  {
    if s.calls[id].op.Get? {
      assert id in Readers(s.calls);
    } else {
      Alone(s, id);
    }
  }

  lemma WithoutOne(a: set<nat>, id: nat)
    ensures |a - {id}| == |a| - (if id in a then 1 else 0)
    ensures id !in a ==> a - {id} == a
  {
  }

  /** Moving one call changes the sets of holders by at most that call. */
  lemma HoldersAfterMove(calls: map<nat, Call>, id: nat, pc: Pc)
    requires id in calls
    ensures var calls' := calls[id := calls[id].(pc := pc)];
            var before := if Holds(calls[id]) then 1 else 0;
            var after := if Holds(calls'[id]) then 1 else 0;
            if calls[id].op.Get?
            then |Readers(calls')| == |Readers(calls)| - before + after && Writers(calls') == Writers(calls)
            else Readers(calls') == Readers(calls) && |Writers(calls')| == |Writers(calls)| - before + after
  {
    var calls' := calls[id := calls[id].(pc := pc)];
    assert Readers(calls') - {id} == Readers(calls) - {id};
    assert Writers(calls') - {id} == Writers(calls) - {id};
    WithoutOne(Readers(calls), id);
    WithoutOne(Readers(calls'), id);
    WithoutOne(Writers(calls), id);
    WithoutOne(Writers(calls'), id);
  }

  lemma ExclusiveStays(s: State, e: Event)
    requires Exclusive(s) && Next(s, e).Some?
    requires e.Invoke? ==> e.id !in s.calls
    ensures Exclusive(Next(s, e).value)
  {
    var s' := Next(s, e).value;
    if e.Step? {
      HoldersAfterMove(s.calls, e.id, s'.calls[e.id].pc);
      if Holds(s.calls[e.id]) {
        HolderIsCounted(s, e.id);
      }
    } else {
      assert Readers(s'.calls) == Readers(s.calls) && Writers(s'.calls) == Writers(s.calls);
    }
  }

  // ---------------------------------------------------------------------------------------------
  // Steps keep every search correct
  // ---------------------------------------------------------------------------------------------

  lemma ProbeKeepsLocals(idx: seq<Tuple>, op: Op, lower: int, upper: int, next: int)
    requires Ascending(Keys(idx))
    requires Window(Keys(idx), op.Key(), lower, upper, next)
    ensures var pc := Probe(idx, op.Key(), lower, upper, next);
            pc.Some? && LocalsHold(idx, Call(op, pc.value))
  {
    var keys, key := Keys(idx), op.Key();
    if key != keys[next] {
      if upper - lower == 1 {
        WindowMisses(keys, key, lower, upper, next);
      } else if Less(keys[next], key) {
        WindowMovesRight(keys, key, lower, upper, next);
      } else {
        WindowMovesLeft(keys, key, lower, upper, next);
      }
    }
  }

  /** The step of a Put that replaces the index does one assignment on the map it stands for. */
  lemma WriteIsPut(s: State, id: nat)
    requires StateHolds(s)
    requires id in s.calls && s.calls[id].op.Put? && Advance(s, id).Some?
    requires Advance(s, id).value.calls[id].pc.Unlocking?
    ensures var s', op := Advance(s, id).value, s.calls[id].op;
            && Ascending(Keys(s'.idx))
            && Contents(s'.idx) == Contents(s.idx)[op.from.String() := op.to]
            && s'.calls[id].pc.answer == Stored
  {
    var c := s.calls[id];
    if c.pc.Decided? {
      PlaceIsCorrect(s.idx, c.pc.found, c.pc.pos, c.op.from, c.op.to);
    } else {
      FirstWrite(c.op.from, c.op.to);
    }
  }

  /** The call that moves is right about the index. */
  lemma MoverStaysRight(s: State, id: nat)
    requires StateHolds(s) && id in s.calls && Advance(s, id).Some?
    ensures var s' := Advance(s, id).value; Ascending(Keys(s'.idx)) && LocalsHold(s'.idx, s'.calls[id])
  {
    var c := s.calls[id];
    if Advance(s, id).value.calls[id].pc.Unlocking? && c.op.Put? {
      WriteIsPut(s, id);
    } else if c.pc.Locked? && s.idx != [] {
      WindowAtStart(Keys(s.idx), c.op.Key());
    } else if c.pc.Probing? {
      ProbeKeepsLocals(s.idx, c.op, c.pc.lower, c.pc.upper, c.pc.next);
    }
  }

  /** And so are the others: either the index did not change, or they do not hold the mutex and have no window. */
  lemma OthersStayRight(s: State, id: nat, other: nat)
    requires StateHolds(s) && id in s.calls && Advance(s, id).Some?
    requires other in s.calls && other != id
    ensures var s' := Advance(s, id).value; s'.calls[other] == s.calls[other] && LocalsHold(s'.idx, s'.calls[other])
  {
    if Advance(s, id).value.idx != s.idx {
      Alone(s, id);
    }
  }

  lemma StateStays(s: State, e: Event)
    requires StateHolds(s) && Next(s, e).Some?
    requires e.Invoke? ==> e.id !in s.calls
    ensures StateHolds(Next(s, e).value)
  {
    ExclusiveStays(s, e);
    if e.Step? {
      var s' := Next(s, e).value;
      MoverStaysRight(s, e.id);
      forall id | id in s'.calls ensures LocalsHold(s'.idx, s'.calls[id]) {
        if id != e.id {
          OthersStayRight(s, e.id, id);
        }
      }
    }
  }

  /** A Get takes its answer from the map the index stands for. */
  lemma ReadIsGet(s: State, id: nat)
    requires StateHolds(s)
    requires id in s.calls && s.calls[id].op.Get? && s.calls[id].pc.Decided? && Advance(s, id).Some?
    ensures Advance(s, id).value.calls[id].pc == Unlocking(AnswerOn(Contents(s.idx), s.calls[id].op))
    ensures Advance(s, id).value.idx == s.idx
  {
    var c := s.calls[id];
    if s.idx != [] {
      LocatedAnswers(s.idx, c.op.Key(), c.pc.found, c.pc.pos);
    }
  }

  // ---------------------------------------------------------------------------------------------
  // Linearizability
  // ---------------------------------------------------------------------------------------------

  lemma AppendKeepsLegal(lin: seq<Entry>, x: Entry)
    requires Legal(lin) && x.answer == AnswerOn(Replay(lin), x.op)
    ensures Legal(lin + [x])
    ensures Replay(lin + [x])
         == if x.op.Put? then Replay(lin)[x.op.from.String() := x.op.to] else Replay(lin)
  {
    var more := lin + [x];
    assert more[..|lin|] == lin;
    forall i | 0 <= i < |more| ensures more[i].answer == AnswerOn(Replay(more[..i]), more[i].op) {
      assert i < |lin| ==> more[..i] == lin[..i];
    }
  }

  /** A call that takes effect goes to the end of the order, after every call that has returned. */
  lemma AppendLinearizes(es: seq<Event>, lin: seq<Entry>, x: Entry)
    requires Linearizes(es, lin)
    requires !Has(lin, x.id) && Invoke(x.id, x.op) in es
    requires x.answer == AnswerOn(Replay(lin), x.op)
    ensures Linearizes(es, lin + [x])
  {
    AppendKeepsLegal(lin, x);
    var lin' := lin + [x];
    forall i | 0 <= i < |es| && es[i].Respond?
      ensures es[i].id != x.id && Answered(lin', es[i].id, es[i].answer)
    {
      assert Answered(lin, es[i].id, es[i].answer);
      var q :| 0 <= q < |lin| && lin[q].id == es[i].id && lin[q].answer == es[i].answer;
      assert lin'[q] == lin[q];
    }
    forall i, j | 0 <= i < j < |es| && es[i].Respond? && es[j].Invoke?
      ensures Precedes(lin', es[i].id, es[j].id)
    {
      assert Precedes(lin, es[i].id, es[j].id);
    }
  }

  /** An event that takes no effect leaves the order alone. */
  lemma SilentLinearizes(es: seq<Event>, lin: seq<Entry>, e: Event)
    requires Linearizes(es, lin)
    requires e.Invoke? ==> !Has(lin, e.id)
    requires e.Respond? ==> Answered(lin, e.id, e.answer)
    ensures Linearizes(es + [e], lin)
  {
    var es' := es + [e];
    forall q | 0 <= q < |lin| ensures Invoke(lin[q].id, lin[q].op) in es' {
      assert Invoke(lin[q].id, lin[q].op) in es;
    }
    forall i, j | 0 <= i < j < |es'| && es'[i].Respond? && es'[j].Invoke?
      ensures Precedes(lin, es'[i].id, es'[j].id)
    {
      if j < |es| {
        assert Precedes(lin, es[i].id, es[j].id);
      }
    }
  }

  lemma NumbersStay(s: State, es: seq<Event>, e: Event)
    requires Numbered(s, es) && Next(s, e).Some?
    ensures Numbered(Next(s, e).value, es + [e])
    ensures e.Invoke? ==> e.id !in s.calls
  {
    var s', es' := Next(s, e).value, es + [e];
    forall id | id in s'.calls ensures id < s'.issued && Invoke(id, s'.calls[id].op) in es' {
      if id in s.calls {
        assert Invoke(id, s.calls[id].op) in es;
      } else {
        assert es'[|es|] == e;
      }
    }
  }

  /** Calls that have not arrived yet are not in the order. */
  lemma NewcomerIsFresh(s: State, es: seq<Event>, lin: seq<Entry>)
    requires Numbered(s, es) && Linearizes(es, lin)
    ensures !Has(lin, s.issued)
  {
    forall q | 0 <= q < |lin| ensures lin[q].id < s.issued {
      var i :| 0 <= i < |es| && es[i] == Invoke(lin[q].id, lin[q].op);
      assert es[i].id < s.issued;
    }
  }

  /** An event by which no call gets its answer. */
  lemma SilentTookEffect(s: State, lin: seq<Entry>, e: Event)
    requires TookEffect(s, lin) && Next(s, e).Some?
    requires e.Invoke? ==> !Has(lin, e.id)
    requires e.Step? ==> !Next(s, e).value.calls[e.id].pc.Unlocking?
    ensures TookEffect(Next(s, e).value, lin)
    ensures Next(s, e).value.idx == s.idx
    ensures e.Respond? ==> Answered(lin, e.id, e.answer)
  {
    if e.Respond? {
      var x := Entry(e.id, s.calls[e.id].op, e.answer);
      var q :| 0 <= q < |lin| && lin[q] == x;
    }
  }

  /** The step by which a call gets its answer does to the map what the operation says. */
  lemma StepIsOperation(s: State, id: nat)
    requires StateHolds(s)
    requires id in s.calls && Advance(s, id).Some?
    requires Advance(s, id).value.calls[id].pc.Unlocking?
    ensures var s', op, table := Advance(s, id).value, s.calls[id].op, Contents(s.idx);
            && s'.calls[id].pc == Unlocking(AnswerOn(table, op))
            && Contents(s'.idx) == if op.Put? then table[op.from.String() := op.to] else table
  {
    if s.calls[id].op.Put? {
      WriteIsPut(s, id);
    } else {
      ReadIsGet(s, id);
    }
  }

  lemma NotYetTaken(s: State, lin: seq<Entry>, id: nat)
    requires TookEffect(s, lin)
    requires id in s.calls && Advance(s, id).Some?
    requires Advance(s, id).value.calls[id].pc.Unlocking?
    ensures !Has(lin, id)
  {
  }

  lemma EffectTaken(s: State, lin: seq<Entry>, id: nat) returns (x: Entry)
    requires StateHolds(s) && Contents(s.idx) == Replay(lin) && Legal(lin) && TookEffect(s, lin)
    requires id in s.calls && Advance(s, id).Some?
    requires Advance(s, id).value.calls[id].pc.Unlocking?
    ensures x.id == id && x.op == s.calls[id].op && x.answer == AnswerOn(Replay(lin), x.op)
    ensures Contents(Advance(s, id).value.idx) == Replay(lin + [x])
    ensures Advance(s, id).value.calls[id].pc == Unlocking(x.answer)
    ensures !Has(lin, id)
  {
    x := Entry(id, s.calls[id].op, AnswerOn(Replay(lin), s.calls[id].op));
    StepIsOperation(s, id);
    NotYetTaken(s, lin, id);
    AppendKeepsLegal(lin, x);
  }

  lemma EffectIsRecorded(s: State, lin: seq<Entry>, id: nat, x: Entry)
    requires TookEffect(s, lin) && id in s.calls && Advance(s, id).Some?
    requires Advance(s, id).value.calls[id].pc == Unlocking(x.answer)
    requires x == Entry(id, s.calls[id].op, x.answer)
    ensures TookEffect(Advance(s, id).value, lin + [x])
  {
    var s', lin' := Advance(s, id).value, lin + [x];
    assert lin'[|lin|] == x;
    assert s'.calls == s.calls[id := s.calls[id].(pc := Unlocking(x.answer))];
    assert forall other | other != id :: Has(lin', other) ==> Has(lin, other);
  }

  /** What an event does to the order and the map, once the state is known to hold and the numbers to be right. */
  lemma EventExtendsOrder(s: State, es: seq<Event>, lin: seq<Entry>, e: Event) returns (lin': seq<Entry>)
    requires Invariant(s, es, lin) && Next(s, e).Some?
    requires e.Invoke? ==> !Has(lin, e.id)
    ensures Contents(Next(s, e).value.idx) == Replay(lin')
    ensures TookEffect(Next(s, e).value, lin')
    ensures Linearizes(es + [e], lin')
  {
    if e.Step? && Next(s, e).value.calls[e.id].pc.Unlocking? {
      var x := EffectTaken(s, lin, e.id);
      lin' := lin + [x];
      EffectIsRecorded(s, lin, e.id, x);
      AppendLinearizes(es, lin, x);
      SilentLinearizes(es, lin', e);
    } else {
      lin' := lin;
      SilentTookEffect(s, lin, e);
      SilentLinearizes(es, lin, e);
    }
  }

  /** One event extends a linearizable run to a linearizable run. */
  lemma EventKeepsInvariant(s: State, es: seq<Event>, lin: seq<Entry>, e: Event) returns (lin': seq<Entry>)
    requires Invariant(s, es, lin) && Next(s, e).Some?
    ensures Invariant(Next(s, e).value, es + [e], lin')
  {
    NumbersStay(s, es, e);
    StateStays(s, e);
    NewcomerIsFresh(s, es, lin);
    lin' := EventExtendsOrder(s, es, lin, e);
  }

  lemma {:induction false} RunKeepsInvariant(es: seq<Event>) returns (lin: seq<Entry>)
    requires Exec(es).Some?
    ensures Invariant(Exec(es).value, es, lin)
  {
    if es == [] {
      lin := [];
      assert Readers(START.calls) == {} && Writers(START.calls) == {};
    } else {
      var n := |es| - 1;
      assert es == es[..n] + [es[n]];
      lin := RunKeepsInvariant(es[..n]);
      lin := EventKeepsInvariant(Exec(es[..n]).value, es[..n], lin, es[n]);
    }
  }

  /** Whatever the scheduler does, the store behaves as a map on which each call happens at one instant between its
      arrival and its return. */
  lemma {:induction false} EveryRunIsLinearizable(es: seq<Event>)
    requires Exec(es).Some?
    ensures Linearizable(es, Contents(Exec(es).value.idx))
  {
    var lin := RunKeepsInvariant(es);
  }

  /** Nothing keeps a new call from arriving, at any time. */
  lemma CallsCanArrive(s: State, op: Op)
    ensures Next(s, Invoke(s.issued, op)).Some?
    ensures Next(s, Invoke(s.issued, op)).value.calls == s.calls[s.issued := Call(op, Waiting)]
  {
  }

  lemma HolderCanMove(s: State, id: nat)
    requires StateHolds(s)
    requires id in s.calls && Holds(s.calls[id])
    ensures Advance(s, id).Some?
  {
    HolderIsCounted(s, id);
    var c := s.calls[id];
    if c.pc.Probing? {
      ProbeKeepsLocals(s.idx, c.op, c.pc.lower, c.pc.upper, c.pc.next);
    }
  }

  /** No search ever leaves the slice, and there is no deadlock: while calls are outstanding, one of them can move. */
  lemma {:induction false} SomeCallCanMove(es: seq<Event>)
    requires Exec(es).Some? && Exec(es).value.calls != map[]
    ensures exists e: Event :: !e.Invoke? && Next(Exec(es).value, e).Some?
    ensures var s := Exec(es).value;
            forall id :: id in s.calls && Holds(s.calls[id]) ==> Next(s, Step(id)).Some?
  {
    var s := Exec(es).value;
    var lin := RunKeepsInvariant(es);
    forall id | id in s.calls && Holds(s.calls[id]) ensures Next(s, Step(id)).Some? {
      HolderCanMove(s, id);
    }
    if id :| id in s.calls && s.calls[id].pc.Unlocked? {
      assert Next(s, Respond(id, s.calls[id].pc.answer)).Some?;
    } else if id :| id in s.calls && Holds(s.calls[id]) {
      assert Next(s, Step(id)).Some?;
    } else {
      assert Readers(s.calls) == {} && Writers(s.calls) == {};
      var id :| id in s.calls;
      assert Next(s, Step(id)).Some?;
    }
  }

  // ---------------------------------------------------------------------------------------------
  // How long a call holds the mutex
  // ---------------------------------------------------------------------------------------------

  /** The steps a call that has got the mutex can still make. */
  function StepsLeft(idx: seq<Tuple>, pc: Pc): nat {
    match pc
    case Waiting => 0
    case Locked => if idx == [] then 3 else 4 + Halvings(|idx|)
    case Probing(lower, upper, _) => if lower < upper then 3 + Halvings(upper - lower) else 0
    case Decided(_, _) => 2
    case Unlocking(_) => 1
    case Unlocked(_) => 0
  }

  lemma ProbeUsesUp(idx: seq<Tuple>, op: Op, lower: int, upper: int, next: int)
    requires Ascending(Keys(idx))
    requires Window(Keys(idx), op.Key(), lower, upper, next)
    ensures var pc := Probe(idx, op.Key(), lower, upper, next);
            && pc.Some? && !pc.value.Waiting?
            && StepsLeft(idx, pc.value) < StepsLeft(idx, Probing(lower, upper, next))
  {
    var keys, key := Keys(idx), op.Key();
    if key != keys[next] && upper - lower > 1 {
      if Less(keys[next], key) {
        WindowMovesRight(keys, key, lower, upper, next);
      } else {
        WindowMovesLeft(keys, key, lower, upper, next);
      }
    }
  }

  /** A step of the call itself uses at least one of them up. */
  lemma OwnStepUsesUp(s: State, id: nat)
    requires StateHolds(s)
    requires id in s.calls && !s.calls[id].pc.Waiting? && Advance(s, id).Some?
    ensures var s' := Advance(s, id).value;
            !s'.calls[id].pc.Waiting? && StepsLeft(s'.idx, s'.calls[id].pc) < StepsLeft(s.idx, s.calls[id].pc)
  {
    var c := s.calls[id];
    if c.pc.Probing? {
      ProbeUsesUp(s.idx, c.op, c.pc.lower, c.pc.upper, c.pc.next);
    }
  }

  /** No event of another call gives it more. */
  lemma OthersStepsDoNotMatter(s: State, id: nat, e: Event)
    requires StateHolds(s) && Next(s, e).Some? && e != Step(id)
    requires id in s.calls && !s.calls[id].pc.Waiting?
    requires e.Invoke? ==> e.id != id
    ensures var s' := Next(s, e).value;
            id in s'.calls ==>
              s'.calls[id] == s.calls[id] && StepsLeft(s'.idx, s'.calls[id].pc) == StepsLeft(s.idx, s.calls[id].pc)
  {
    if e.Step? && Next(s, e).value.idx != s.idx {
      Alone(s, e.id);
    }
  }

  function ExecFrom(s: State, es: seq<Event>): Option<State>
    decreases es
  {
    if es == [] then Some(s)
    else if Next(s, es[0]).None? then None
    else ExecFrom(Next(s, es[0]).value, es[1..])
  }

  function OwnSteps(es: seq<Event>, id: nat): nat {
    if es == [] then 0 else (if es[0] == Step(id) then 1 else 0) + OwnSteps(es[1..], id)
  }

  ghost predicate IssuedBefore(s: State) {
    forall id :: id in s.calls ==> id < s.issued
  }

  /** The steps that are left to a call that has got the mutex; none once it has returned. */
  function Budget(s: State, id: nat): nat {
    if id in s.calls then StepsLeft(s.idx, s.calls[id].pc) else 0
  }

  ghost predicate GotTheMutex(s: State, id: nat) {
    id < s.issued && (id in s.calls ==> !s.calls[id].pc.Waiting?)
  }

  lemma BudgetShrinks(s: State, id: nat, e: Event)
    requires StateHolds(s) && IssuedBefore(s) && Next(s, e).Some?
    requires GotTheMutex(s, id)
    ensures var s' := Next(s, e).value;
            && IssuedBefore(s') && GotTheMutex(s', id)
            && (if e == Step(id) then Budget(s', id) < Budget(s, id) else Budget(s', id) <= Budget(s, id))
  {
    if e == Step(id) {
      OwnStepUsesUp(s, id);
    } else if id in s.calls {
      OthersStepsDoNotMatter(s, id, e);
    }
  }

  lemma {:induction false} StepsAreBudgeted(s: State, id: nat, es: seq<Event>)
    requires StateHolds(s) && IssuedBefore(s) && ExecFrom(s, es).Some?
    requires GotTheMutex(s, id)
    ensures OwnSteps(es, id) <= Budget(s, id)
    decreases es
  {
    if es != [] {
      StateStays(s, es[0]);
      BudgetShrinks(s, id, es[0]);
      StepsAreBudgeted(Next(s, es[0]).value, id, es[1..]);
    }
  }

  lemma StepsAreFew(idx: seq<Tuple>, pc: Pc)
    requires pc.Probing? ==> 0 <= pc.lower < pc.upper <= |idx|
    ensures StepsLeft(idx, pc) <= if idx == [] then 3 else 4 + Halvings(|idx|)
  {
    if pc.Probing? {
      HalvingsGrow(pc.upper - pc.lower, |idx|);
    }
  }

  /** Whatever the other calls do, a call that has got the mutex makes only so many more steps: with n entries in the
      slice, at most 4 + ceil(log2 n) until it has its answer and has given the mutex back. */
  lemma HoldersAreQuick(s: State, id: nat, es: seq<Event>)
    requires StateHolds(s) && IssuedBefore(s) && ExecFrom(s, es).Some?
    requires GotTheMutex(s, id)
    ensures OwnSteps(es, id) <= if s.idx == [] then 3 else 4 + Halvings(|s.idx|)
  {
    StepsAreBudgeted(s, id, es);
    if id in s.calls {
      assert LocalsHold(s.idx, s.calls[id]);
      StepsAreFew(s.idx, s.calls[id].pc);
    }
  }
}
