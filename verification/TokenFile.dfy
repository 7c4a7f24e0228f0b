/** The file a token is kept in. It is replaced by writing a swap file beside it and renaming that over it. */
module TokenFile {
  import opened Wrappers

  type Bytes = seq<bv8>

  /** The two files. The swap file is left behind when a write is cut short. */
  datatype Disk = Disk(path: Option<Bytes>, swap: Option<Bytes>) {

    /** The bytes that opening the swap file, without truncating it, starts from. */
    function Leftover(): Bytes {
      if swap.Some? then swap.value else []
    }
  }

  /** Writing over the start of a file: what the file had beyond that stays. */
  function Overlay(data: Bytes, base: Bytes): Bytes {
    data + (if |data| < |base| then base[|data|..] else [])
  }

  /** Byte by byte: what was written, and then what was there. */
  lemma OverlayAt(data: Bytes, base: Bytes, i: nat)
    requires i < |data| || i < |base|
    ensures i < |Overlay(data, base)|
    ensures Overlay(data, base)[i] == if i < |data| then data[i] else base[i]
    ensures |Overlay(data, base)| == |data| || |Overlay(data, base)| == |base|
  {
  }

  /** What is read back is what was written exactly when nothing longer was left over. */
  lemma OverlayIsExactIff(data: Bytes, base: Bytes)
    ensures Overlay(data, base) == data <==> |base| <= |data|
  {
  }

  /** Writing a file in two pieces is writing it in one. */
  lemma OverlayInPieces(data: Bytes, base: Bytes, done: nat, more: nat)
    requires done + more <= |data|
    ensures var before := Overlay(data[..done], base);
            before[..done] + Overlay(data[done..done + more], before[done..]) == Overlay(data[..done + more], base)
  {
    var before := Overlay(data[..done], base);
    assert before[..done] == data[..done];
    assert before[done..] == if done < |base| then base[done..] else [];
    assert data[..done] + data[done..done + more] == data[..done + more];
  }

  // ---------------------------------------------------------------------------------------------
  // The protocol, one system call at a time
  // ---------------------------------------------------------------------------------------------

  /** Where a writer is. `base` records what the swap file held when it was opened, for the proofs to refer to. */
  datatype Phase =
    | Idle
    | Writing(data: Bytes, base: Bytes, done: nat)
    | Closed(data: Bytes, base: Bytes)

  datatype State = State(disk: Disk, phase: Phase)

  /** `Chunk` writes some more bytes. `Stop` is a failed call, or the end of the process: the writer is gone, the files
      stay as they are. */
  datatype Event = Open(data: Bytes) | Chunk(count: nat) | Close | Rename | Stop

  function Step(s: State, e: Event): State {
    match e
    case Open(data) =>
      if !s.phase.Idle? then s
      else State(s.disk.(swap := Some(s.disk.Leftover())), Writing(data, s.disk.Leftover(), 0))
    case Chunk(count) =>
      if !s.phase.Writing? || s.phase.done + count > |s.phase.data| || s.phase.done > |s.disk.Leftover()| then s
      else
        var done, swap := s.phase.done, s.disk.Leftover();
        var written := swap[..done] + Overlay(s.phase.data[done..done + count], swap[done..]);
        State(s.disk.(swap := Some(written)), s.phase.(done := done + count))
    case Close =>
      if !s.phase.Writing? || s.phase.done < |s.phase.data| then s
      else s.(phase := Closed(s.phase.data, s.phase.base))
    case Rename =>
      if !s.phase.Closed? then s else State(Disk(s.disk.swap, None), Idle)
    case Stop =>
      s.(phase := Idle)
  }

  function Run(s: State, es: seq<Event>): State
    decreases es
  {
    if es == [] then s else Run(Step(s, es[0]), es[1..])
  }

  /** While a write is under way, the swap file holds exactly what has been written, over what was left before. */
  ghost predicate Consistent(s: State) {
    match s.phase
    case Idle => true
    case Writing(data, base, done) => done <= |data| && s.disk.swap == Some(Overlay(data[..done], base))
    case Closed(data, base) => s.disk.swap == Some(Overlay(data, base))
  }

  lemma StepKeepsConsistent(s: State, e: Event)
    requires Consistent(s)
    ensures Consistent(Step(s, e))
  {
    if e.Chunk? && s.phase.Writing? && s.phase.done + e.count <= |s.phase.data| {
      OverlayInPieces(s.phase.data, s.phase.base, s.phase.done, e.count);
    } else if e.Open? {
      assert e.data[..0] == [] && Overlay([], s.disk.Leftover()) == s.disk.Leftover();
    } else if e.Close? && s.phase.Writing? && s.phase.done == |s.phase.data| {
      assert s.phase.data[..s.phase.done] == s.phase.data;
    }
  }

  /** The contents that the renames of a run put in place, in order. */
  function Commits(s: State, es: seq<Event>): seq<Bytes>
    decreases es
  {
    if es == [] then []
    else
      (if es[0].Rename? && s.phase.Closed? then [Overlay(s.phase.data, s.phase.base)] else [])
      + Commits(Step(s, es[0]), es[1..])
  }

  /** Wherever a run stops, and however many writes it cut short before, the file holds what the last completed write
      put there, whole, or what it held at the start; never a part of a write. */
  lemma {:induction false} NeverPartial(s: State, es: seq<Event>)
    requires Consistent(s)
    ensures Consistent(Run(s, es))
    ensures var commits := Commits(s, es);
            Run(s, es).disk.path == if commits == [] then s.disk.path else Some(commits[|commits| - 1])
    decreases es
  {
    if es != [] {
      StepKeepsConsistent(s, es[0]);
      NeverPartial(Step(s, es[0]), es[1..]);
    }
  }

  /** A writer that is never replaced by another commits its data at most once, and nothing else. */
  lemma {:induction false} OneWriter(s: State, es: seq<Event>, data: Bytes, base: Bytes)
    requires forall e :: e in es ==> !e.Open?
    requires !s.phase.Idle? ==> s.phase.data == data && s.phase.base == base
    ensures Commits(s, es) == [] || (!s.phase.Idle? && Commits(s, es) == [Overlay(data, base)])
    decreases es
  {
    if es != [] {
      OneWriter(Step(s, es[0]), es[1..], data, base);
    }
  }

  /** Whether a writer that went on like this gets as far as replacing the file. */
  predicate Replaces(d: Disk, data: Bytes, rest: seq<Event>) {
    Commits(State(d, Idle), [Open(data)] + rest) != []
  }

  /** Stopped anywhere, with its bytes written in any number of pieces, a write puts all of its data in place if it got
      as far as replacing the file, and leaves the file as it was otherwise. */
  lemma CutShort(d: Disk, data: Bytes, rest: seq<Event>)
    requires forall e :: e in rest ==> !e.Open?
    ensures Run(State(d, Idle), [Open(data)] + rest).disk.path
         == if Replaces(d, data, rest) then Some(Overlay(data, d.Leftover())) else d.path
  {
    var s, es := State(d, Idle), [Open(data)] + rest;
    assert es[1..] == rest;
    NeverPartial(s, es);
    OneWriter(Step(s, es[0]), rest, data, d.Leftover());
  }

  /** No write of a run, completed or not, is shorter than this. */
  ghost predicate NoShorter(es: seq<Event>, len: nat) {
    forall i :: 0 <= i < |es| && es[i].Open? ==> |es[i].data| >= len
  }

  /** Writes of a run do not get shorter. */
  ghost predicate Growing(es: seq<Event>) {
    forall i, j :: 0 <= i < j < |es| && es[i].Open? && es[j].Open? ==> |es[i].data| <= |es[j].data|
  }

  /** What the writer under way, or the swap file it left, can still add to a later file. */
  function Reach(s: State): nat {
    if s.phase.Idle? then |s.disk.Leftover()|
    else if |s.phase.data| < |s.phase.base| then |s.phase.base| else |s.phase.data|
  }

  /** The data of the completed writes of a run. */
  function Payloads(s: State, es: seq<Event>): seq<Bytes>
    decreases es
  {
    if es == [] then []
    else
      (if es[0].Rename? && s.phase.Closed? then [s.phase.data] else []) + Payloads(Step(s, es[0]), es[1..])
  }

  /** While a writer is at work, its leftover is not longer than its data. */
  ghost predicate Clean(s: State) {
    !s.phase.Idle? ==> |s.phase.base| <= |s.phase.data|
  }

  lemma ReachIsBounded(s: State, e: Event)
    requires Consistent(s) && Clean(s)
    requires e.Open? ==> |e.data| >= Reach(s)
    ensures Clean(Step(s, e))
    ensures Reach(Step(s, e)) <= if e.Open? then |e.data| else Reach(s)
  {
  }

  /** Cut short anywhere, a write over a leftover that is no longer leaves no more than its own data. */
  lemma {:induction false} RunStaysInReach(s: State, es: seq<Event>)
    requires Consistent(s) && Clean(s)
    requires forall e :: e in es ==> !e.Open?
    ensures |Run(s, es).disk.Leftover()| <= Reach(s)
    decreases es
  {
    if es != [] {
      StepKeepsConsistent(s, es[0]);
      ReachIsBounded(s, es[0]);
      RunStaysInReach(Step(s, es[0]), es[1..]);
    }
  }

  /** If writes never get shorter, and the first is no shorter than what was left over before, then every completed
      write is exact, whatever is cut short in between. */
  lemma {:induction false} GrowingWritesAreExact(s: State, es: seq<Event>)
    requires Consistent(s) && Clean(s)
    requires Growing(es) && NoShorter(es, Reach(s))
    ensures Commits(s, es) == Payloads(s, es)
    decreases es
  {
    if es != [] {
      var s' := Step(s, es[0]);
      StepKeepsConsistent(s, es[0]);
      ReachIsBounded(s, es[0]);
      assert NoShorter(es[1..], Reach(s')) by {
        forall i | 0 <= i < |es[1..]| && es[1..][i].Open? ensures |es[1..][i].data| >= Reach(s') {
          assert es[1..][i] == es[i + 1];
        }
      }
      assert Growing(es[1..]) by {
        forall i, j | 0 <= i < j < |es[1..]| && es[1..][i].Open? && es[1..][j].Open?
          ensures |es[1..][i].data| <= |es[1..][j].data|
        {
          assert es[1..][i] == es[i + 1] && es[1..][j] == es[j + 1];
        }
      }
      GrowingWritesAreExact(s', es[1..]);
      if s.phase.Closed? {
        OverlayIsExactIff(s.phase.data, s.phase.base);
      }
    }
  }

  // ---------------------------------------------------------------------------------------------
  // The file
  // ---------------------------------------------------------------------------------------------

  datatype Error = NotFound | StorageFailure

  /** Which system call of a write fails, if any. A write can fail after some of the bytes. */
  datatype Fault = NoFault | OpenFails | WriteFails(count: nat) | CloseFails | RenameFails

  /** The events of a write with this fault. */
  function Script(data: Bytes, fault: Fault): seq<Event> {
    match fault
    case OpenFails => []
    case WriteFails(count) => [Open(data), Chunk(count), Stop]
    case CloseFails => [Open(data), Chunk(|data|), Close, Stop]
    case RenameFails => [Open(data), Chunk(|data|), Close, Stop]
    case NoFault => [Open(data), Chunk(|data|), Close, Rename]
  }

  /** The disk after a write with this fault. */
  function DiskAfter(d: Disk, data: Bytes, fault: Fault): Disk {
    match fault
    case OpenFails => d
    case WriteFails(count) => d.(swap := Some(Overlay(if count <= |data| then data[..count] else [], d.Leftover())))
    case CloseFails => d.(swap := Some(Overlay(data, d.Leftover())))
    case RenameFails => d.(swap := Some(Overlay(data, d.Leftover())))
    case NoFault => Disk(Some(Overlay(data, d.Leftover())), None)
  }

  lemma RunCons(s: State, e: Event, es: seq<Event>)
    ensures Run(s, [e] + es) == Run(Step(s, e), es)
  {
    assert ([e] + es)[1..] == es;
  }

  /** The plain account of a write is what the system calls do. */
  lemma ScriptMakesDisk(d: Disk, data: Bytes, fault: Fault)
    ensures Run(State(d, Idle), Script(data, fault)) == State(DiskAfter(d, data, fault), Idle)
  {
    var s := State(d, Idle);
    if fault.WriteFails? {
      var s1 := Step(s, Open(data));
      var base, count := d.Leftover(), fault.count;
      if count <= |data| {
        assert data[0..count] == data[..count] && base[0..] == base;
        assert base[..0] + Overlay(data[..count], base) == Overlay(data[..count], base);
      } else {
        assert Overlay([], base) == base;
      }
      RunCons(s, Open(data), [Chunk(fault.count), Stop]);
      RunCons(s1, Chunk(fault.count), [Stop]);
      RunCons(Step(s1, Chunk(fault.count)), Stop, []);
      assert Script(data, fault) == [Open(data)] + [Chunk(fault.count), Stop];
      assert [Chunk(fault.count), Stop] == [Chunk(fault.count)] + [Stop];
    } else if !fault.OpenFails? {
      var last := if fault.NoFault? then Rename else Stop;
      var s1 := Step(s, Open(data));
      var s2 := Step(s1, Chunk(|data|));
      var base := d.Leftover();
      assert data[0..|data|] == data && base[0..] == base && base[..0] + Overlay(data, base) == Overlay(data, base);
      RunCons(s, Open(data), [Chunk(|data|), Close, last]);
      RunCons(s1, Chunk(|data|), [Close, last]);
      RunCons(s2, Close, [last]);
      RunCons(Step(s2, Close), last, []);
      assert Script(data, fault) == [Open(data)] + [Chunk(|data|), Close, last];
      assert [Chunk(|data|), Close, last] == [Chunk(|data|)] + [Close, last];
      assert [Close, last] == [Close] + [last];
    }
  }

  class File {
    var path: Option<Bytes>
    var swap: Option<Bytes>

    function Contents(): Disk
      reads this
    {
      Disk(path, swap)
    }

    /** `readable` is false when the file is there but cannot be opened or read. */
    method Read(readable: bool) returns (r: Result<Bytes, Error>)
      ensures r == Err(NotFound) <==> path.None?
      ensures r.Ok? <==> path.Some? && readable
      ensures r.Ok? ==> path == Some(r.value)
    {
      if path.None? {
        return Err(NotFound);
      }
      if !readable {
        return Err(StorageFailure);
      }
      return Ok(path.value);
    }

    method Write(data: Bytes, fault: Fault) returns (err: Option<Error>)
      modifies this
      ensures Contents() == DiskAfter(old(Contents()), data, fault)
      ensures err == if fault.NoFault? then None else Some(StorageFailure)
      ensures err.Some? ==> path == old(path)
      ensures err.None? ==> swap == None && path == Some(Overlay(data, old(Contents()).Leftover()))
      ensures fault.OpenFails? ==> swap == old(swap)
      ensures fault.CloseFails? || fault.RenameFails? ==> swap == Some(Overlay(data, old(Contents()).Leftover()))
      ensures err.None? ==> (path == Some(data) <==> |old(Contents()).Leftover()| <= |data|)
    {
      if fault.OpenFails? {
        return Some(StorageFailure);
      }
      ghost var base := Contents().Leftover();
      if swap.None? {
        swap := Some([]);
      }

      if fault.WriteFails? {
        swap := Some(Overlay(if fault.count <= |data| then data[..fault.count] else [], swap.value));
        return Some(StorageFailure);
      }
      swap := Some(Overlay(data, swap.value));

      if fault.CloseFails? || fault.RenameFails? {
        return Some(StorageFailure);
      }
      path := swap;
      swap := None;
      OverlayIsExactIff(data, base);
      return None;
    }
  }
}
