/** The three in-memory stores. */
module Memory {
  import opened Wrappers
  import opened Lexical
  import opened Urls
  import opened Storage
  import opened SortedIndex

  /** A Go map from the text of an URL to its destination. */
  class HashTable {
    var table: Table

    constructor ()
      ensures table == map[]
    {
      table := map[];
    }

    method Get(input: Url) returns (r: Result<Url, Error>)
      ensures r == Lookup(table, input)
    {
      var key := input.String();
      if key in table {
        return Ok(table[key]);
      }
      return Err(NotFound);
    }

    method Put(from: Url, to: Url)
      modifies this
      ensures table == old(table)[from.String() := to]
    {
      table := table[from.String() := to];
    }
  }

  /** A slice that is appended to, and scanned from the start. */
  class LinearSearch {
    var idx: seq<Tuple>

    constructor ()
      ensures idx == []
    {
      idx := [];
    }

    method Get(input: Url) returns (r: Result<Url, Error>)
      ensures r == Lookup(Contents(idx), input)
    {
      for i := 0 to |idx|
        invariant forall j :: 0 <= j < i ==> Keys(idx)[j] != input.String()
      {
        if input.String() == idx[i].from.String() {
          ContentsFirst(idx, i);
          return Ok(idx[i].to);
        }
      }
      ContentsKeys(idx, input.String());
      return Err(NotFound);
    }

    method Put(from: Url, to: Url)
      modifies this
      ensures idx == old(idx) + [Tuple(from, to)]
    {
      idx := idx + [Tuple(from, to)];
    }
  }

  /** A slice kept sorted by key. */
  class BinarySearch {
    var idx: seq<Tuple>

    ghost predicate Valid()
      reads this
    {
      Ascending(Keys(idx))
    }

    constructor ()
      ensures Valid() && idx == []
    {
      idx := [];
    }

    /** Finds the key, or the entry a new key belongs beside. A search that fails makes exactly one probe more than
        the base-2 logarithm of the number of entries, rounded up; a search that succeeds makes no more than that. */
    method Find(input: Url) returns (found: bool, nearest: nat, ghost probes: nat)
      requires Valid()
      ensures idx == [] ==> !found && nearest == 0 && probes == 0
      ensures idx != [] ==> Located(idx, input.String(), found, nearest)
      ensures idx != [] ==> 1 <= probes <= 1 + Halvings(|idx|)
      ensures idx != [] && !found ==> probes == 1 + Halvings(|idx|)
    {
      var idx := this.idx;
      if |idx| == 0 {
        return false, 0, 0;
      }

      var lower := 0;
      var upper := |idx|;
      var next := (upper - lower) / 2;
      probes := 0;

      var key := input.String();
      ghost var keys, total := Keys(idx), Halvings(|idx|);
      WindowAtStart(keys, key);
      while true
        invariant Window(keys, key, lower, upper, next)
        invariant Halvings(upper - lower) == total - probes
        decreases upper - lower
      {
        probes := probes + 1;
        if key == idx[next].from.String() {
          return true, next, probes;
        }

        if upper - lower == 1 {
          WindowMisses(keys, key, lower, upper, next);
          return false, lower, probes;
        }

        if Less(idx[next].from.String(), key) {
          WindowMovesRight(keys, key, lower, upper, next);
          lower := lower + (upper - lower) / 2;
        } else {
          WindowMovesLeft(keys, key, lower, upper, next);
          upper := upper - (upper - lower) / 2;
        }

        next := lower + (upper - lower) / 2;
      }
    }

    method Get(input: Url) returns (r: Result<Url, Error>)
      requires Valid()
      ensures r == Lookup(Contents(idx), input)
    {
      var found, pos, probes := Find(input);
      if idx != [] {
        LocatedAnswers(idx, input.String(), found, pos);
      }
      if found {
        return Ok(idx[pos].to);
      }
      return Err(NotFound);
    }

    method Put(from: Url, to: Url)
      requires Valid()
      modifies this
      ensures Valid()
      ensures idx == Upsert(old(idx), from, to)
      ensures Contents(idx) == old(Contents(idx))[from.String() := to]
    {
      if |idx| == 0 {
        FirstWrite(from, to);
        idx := idx + [Tuple(from, to)];
        return;
      }

      var found, nearest, probes := Find(from);
      PlaceIsCorrect(idx, found, nearest, from, to);
      var pos := nearest;
      if found {
        idx := idx[pos := idx[pos].(to := to)];
        return;
      }

      if Less(idx[pos].from.String(), from.String()) {
        pos := pos + 1;
      }

      var ni := [];
      ni := ni + idx[..pos];
      assert ni == idx[..pos];
      ni := ni + [Tuple(from, to)];
      ni := ni + idx[pos..];
      assert ni == Place(idx, found, nearest, from, to);
      idx := ni;
    }
  }

  // ---------------------------------------------------------------------------------------------
  // Whole runs: the three stores after the same sequence of writes
  // ---------------------------------------------------------------------------------------------

  /** The hash table after a sequence of writes. */
  function TableAfter(log: seq<Tuple>): Table {
    if log == [] then map[]
    else TableAfter(log[..|log| - 1])[Key(log[|log| - 1]) := log[|log| - 1].to]
  }

  /** The sorted slice after a sequence of writes. */
  function IndexAfter(log: seq<Tuple>): seq<Tuple> {
    if log == [] then []
    else Upsert(IndexAfter(log[..|log| - 1]), log[|log| - 1].from, log[|log| - 1].to)
  }

  /** After any writes, the sorted slice is strictly sorted and answers every lookup as the hash table does. */
  lemma {:induction false} BinarySearchAgreesWithHashTable(log: seq<Tuple>)
    ensures Ascending(Keys(IndexAfter(log)))
    ensures forall u: Url :: Lookup(Contents(IndexAfter(log)), u) == Lookup(TableAfter(log), u)
    ensures Contents(IndexAfter(log)) == TableAfter(log)
  {
    if log != [] {
      var before, last := log[..|log| - 1], log[|log| - 1];
      BinarySearchAgreesWithHashTable(before);
      UpsertKeepsAscending(IndexAfter(before), last.from, last.to);
      UpsertAssigns(IndexAfter(before), last.from, last.to);
    }
  }

  /** No earlier write was for the same key. */
  ghost predicate FirstFor(log: seq<Tuple>, i: int) {
    0 <= i < |log| && forall j :: 0 <= j < i ==> Keys(log)[j] != Key(log[i])
  }

  /** No later write was for the same key. */
  ghost predicate LastFor(log: seq<Tuple>, i: int) {
    0 <= i < |log| && forall j :: i < j < |log| ==> Keys(log)[j] != Key(log[i])
  }

  lemma {:induction false} TableKeys(log: seq<Tuple>, key: string)
    ensures key in TableAfter(log) <==> key in Keys(log)
  {
    if log != [] {
      TableKeys(log[..|log| - 1], key);
      assert Keys(log) == Keys(log[..|log| - 1]) + [Key(log[|log| - 1])];
    }
  }

  lemma {:induction false} TableHasLast(log: seq<Tuple>, i: int)
    requires LastFor(log, i)
    ensures Key(log[i]) in TableAfter(log) && TableAfter(log)[Key(log[i])] == log[i].to
  {
    var before := log[..|log| - 1];
    if i < |log| - 1 {
      assert Keys(log)[|log| - 1] != Key(log[i]);
      forall j | i < j < |before| ensures Keys(before)[j] != Key(before[i]) {
        assert Keys(log)[j] != Key(log[i]);
      }
      TableHasLast(before, i);
    }
  }

  /** A store that behaves as a map answers a lookup with the last destination written for its URL, if there is any. */
  lemma LastWriteAnswers(log: seq<Tuple>, u: Url)
    ensures forall i :: 0 <= i < |log| && log[i].from.String() == u.String()
                        && (forall j :: i < j < |log| ==> log[j].from.String() != u.String()) ==>
              Lookup(TableAfter(log), u) == Ok(log[i].to)
    ensures (forall i :: 0 <= i < |log| ==> log[i].from.String() != u.String()) ==>
              Lookup(TableAfter(log), u) == Err(NotFound)
  {
    forall i | 0 <= i < |log| && log[i].from.String() == u.String()
               && forall j :: i < j < |log| ==> log[j].from.String() != u.String()
      ensures Lookup(TableAfter(log), u) == Ok(log[i].to)
    {
      assert LastFor(log, i);
      TableHasLast(log, i);
    }
    TableKeys(log, u.String());
  }

  lemma {:induction false} FirstExists(log: seq<Tuple>, key: string) returns (i: int)
    requires key in Keys(log)
    ensures FirstFor(log, i) && Key(log[i]) == key
  {
    if Key(log[0]) == key {
      i := 0;
    } else {
      assert Keys(log) == [Key(log[0])] + Keys(log[1..]);
      i := FirstExists(log[1..], key);
      i := i + 1;
      forall j | 0 <= j < i ensures Keys(log)[j] != Key(log[i]) {
        assert j > 0 ==> Keys(log)[j] == Keys(log[1..])[j - 1];
      }
    }
  }

  lemma {:induction false} LastExists(log: seq<Tuple>, key: string) returns (i: int)
    requires key in Keys(log)
    ensures LastFor(log, i) && Key(log[i]) == key
  {
    var n := |log| - 1;
    if Key(log[n]) == key {
      i := n;
    } else {
      assert Keys(log) == Keys(log[..n]) + [Key(log[n])];
      i := LastExists(log[..n], key);
      forall j | i < j < |log| ensures Keys(log)[j] != Key(log[i]) {
        assert j < n ==> Keys(log)[j] == Keys(log[..n])[j];
      }
    }
  }

  /** The appending store answers with the first write for a key and the hash table with the last, so the two agree
      on every lookup exactly when no key was given a final destination other than its first. */
  lemma LinearSearchAgreesIff(log: seq<Tuple>)
    ensures Contents(log) == TableAfter(log)
       <==> forall i, j :: FirstFor(log, i) && LastFor(log, j) && Key(log[i]) == Key(log[j]) ==> log[i].to == log[j].to
  {
    forall i, j | FirstFor(log, i) && LastFor(log, j) && Key(log[i]) == Key(log[j])
      ensures Key(log[i]) in Contents(log) && Contents(log)[Key(log[i])] == log[i].to
      ensures Key(log[i]) in TableAfter(log) && TableAfter(log)[Key(log[i])] == log[j].to
    {
      ContentsFirst(log, i);
      TableHasLast(log, j);
    }
    forall key ensures key in Contents(log) <==> key in Keys(log)
               ensures key in TableAfter(log) <==> key in Keys(log) {
      ContentsKeys(log, key);
      TableKeys(log, key);
    }
    if forall i, j :: FirstFor(log, i) && LastFor(log, j) && Key(log[i]) == Key(log[j]) ==> log[i].to == log[j].to {
      forall key | key in Contents(log) ensures Contents(log)[key] == TableAfter(log)[key] {
        var i := FirstExists(log, key);
        var j := LastExists(log, key);
      }
    }
  }
}
