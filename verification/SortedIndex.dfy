/** The sorted slice of the binary search store: its order, its search, and the map it stands for. */
module SortedIndex {
  import opened Lexical
  import opened Urls

  datatype Tuple = Tuple(from: Url, to: Url)

  function Key(e: Tuple): string {
    e.from.String()
  }

  function Keys(idx: seq<Tuple>): (keys: seq<string>)
    ensures |keys| == |idx|
    ensures forall i :: 0 <= i < |idx| ==> keys[i] == Key(idx[i])
  {
    seq(|idx|, i requires 0 <= i < |idx| => Key(idx[i]))
  }

  ghost predicate Ascending(keys: seq<string>) {
    forall i, j :: 0 <= i < j < |keys| ==> Less(keys[i], keys[j])
  }

  /** What a scan from the left finds: the first entry for a key decides. */
  function Contents(idx: seq<Tuple>): map<string, Url> {
    if idx == [] then map[] else Contents(idx[1..])[Key(idx[0]) := idx[0].to]
  }

  // ---------------------------------------------------------------------------------------------
  // How many probes a search needs
  // ---------------------------------------------------------------------------------------------

  function Pow2(n: nat): nat {
    if n == 0 then 1 else 2 * Pow2(n - 1)
  }

  /** How often n entries can be halved, rounding up, before one is left. */
  function Halvings(n: nat): nat
    requires n > 0
  {
    if n == 1 then 0 else 1 + Halvings((n + 1) / 2)
  }

  /** Halvings(n) is the base-2 logarithm of n, rounded up. */
  lemma {:induction false} HalvingsIsCeilLog2(n: nat)
    requires n > 0
    ensures n <= Pow2(Halvings(n))
    ensures n > 1 ==> Halvings(n) > 0 && Pow2(Halvings(n) - 1) < n
  {
    if n > 2 {
      HalvingsIsCeilLog2((n + 1) / 2);
    }
  }

  lemma {:induction false} HalvingsGrow(m: nat, n: nat)
    requires 0 < m <= n
    ensures Halvings(m) <= Halvings(n)
  {
    if m > 1 {
      HalvingsGrow((m + 1) / 2, (n + 1) / 2);
    }
  }

  // ---------------------------------------------------------------------------------------------
  // The search window
  // ---------------------------------------------------------------------------------------------

  /** The key can only be inside [lower, upper), the probe is in the middle, and the entry at a moved lower bound is
      smaller than the key. */
  ghost predicate Window(keys: seq<string>, key: string, lower: int, upper: int, next: int) {
    && 0 <= lower <= next < upper <= |keys|
    && next == lower + (upper - lower) / 2
    && (forall i :: 0 <= i < lower ==> Less(keys[i], key))
    && (forall i :: upper <= i < |keys| ==> Less(key, keys[i]))
    && (lower > 0 ==> Less(keys[lower], key))
  }

  /** The position a search for an absent key ends at: the entry before the key, or entry 0 if there is none. */
  ghost predicate Nearest(keys: seq<string>, key: string, pos: int) {
    && 0 <= pos < |keys|
    && keys[pos] != key
    && (forall i :: 0 <= i < pos ==> Less(keys[i], key))
    && (forall i :: pos < i < |keys| ==> Less(key, keys[i]))
    && (pos > 0 ==> Less(keys[pos], key))
  }

  lemma WindowAtStart(keys: seq<string>, key: string)
    requires keys != []
    ensures Window(keys, key, 0, |keys|, |keys| / 2)
  {
  }

  /** A window of width one that does not hold the key locates it anyway. */
  lemma WindowMisses(keys: seq<string>, key: string, lower: int, upper: int, next: int)
    requires Window(keys, key, lower, upper, next)
    requires keys[next] != key && upper - lower == 1
    ensures Nearest(keys, key, lower)
  {
  }

  /** A probe below the key discards everything left of the probe; one halving fewer remains. */
  lemma WindowMovesRight(keys: seq<string>, key: string, lower: int, upper: int, next: int)
    requires Ascending(keys)
    requires Window(keys, key, lower, upper, next)
    requires Less(keys[next], key) && upper - lower > 1
    ensures var l := lower + (upper - lower) / 2;
            Window(keys, key, l, upper, l + (upper - l) / 2) && Halvings(upper - l) == Halvings(upper - lower) - 1
  {
    forall i | 0 <= i < next ensures Less(keys[i], key) {
      LessTransitive(keys[i], keys[next], key);
    }
  }

  /** A probe above the key discards the right half; what is left may or may not still include the probe. */
  lemma WindowMovesLeft(keys: seq<string>, key: string, lower: int, upper: int, next: int)
    requires Ascending(keys)
    requires Window(keys, key, lower, upper, next)
    requires keys[next] != key && !Less(keys[next], key) && upper - lower > 1
    ensures var u := upper - (upper - lower) / 2;
            Window(keys, key, lower, u, lower + (u - lower) / 2) && Halvings(u - lower) == Halvings(upper - lower) - 1
  {
    LessTrichotomy(keys[next], key);
    forall i | next < i < |keys| ensures Less(key, keys[i]) {
      LessTransitive(key, keys[next], keys[i]);
    }
  }

  /** A search that ends without a hit was for a key that is not there. */
  lemma NearestIsAbsent(keys: seq<string>, key: string, pos: int)
    requires Nearest(keys, key, pos)
    ensures key !in keys
  {
    forall i | 0 <= i < |keys| ensures keys[i] != key {
      LessTrichotomy(keys[i], key);
    }
  }

  // ---------------------------------------------------------------------------------------------
  // Writing
  // ---------------------------------------------------------------------------------------------

  /** Writing into a sorted list the plain way: walk to the place, replace or insert. */
  function Upsert(idx: seq<Tuple>, from: Url, to: Url): seq<Tuple> {
    if idx == [] then [Tuple(from, to)]
    else if Key(idx[0]) == from.String() then [Tuple(idx[0].from, to)] + idx[1..]
    else if Less(from.String(), Key(idx[0])) then [Tuple(from, to)] + idx
    else [idx[0]] + Upsert(idx[1..], from, to)
  }

  /** The slice that Put builds from the outcome of a search: overwrite in place, or splice before or after. */
  function Place(idx: seq<Tuple>, found: bool, nearest: nat, from: Url, to: Url): seq<Tuple>
    requires nearest < |idx|
  {
    if found then idx[nearest := idx[nearest].(to := to)]
    else
      var pos := if Less(Key(idx[nearest]), from.String()) then nearest + 1 else nearest;
      idx[..pos] + [Tuple(from, to)] + idx[pos..]
  }

  /** What a finished search in a non-empty index guarantees to its caller. */
  ghost predicate Located(idx: seq<Tuple>, key: string, found: bool, nearest: int) {
    && 0 <= nearest < |idx|
    && if found then Keys(idx)[nearest] == key else Nearest(Keys(idx), key, nearest)
  }

  lemma AscendingTail(idx: seq<Tuple>)
    requires Ascending(Keys(idx)) && idx != []
    ensures Ascending(Keys(idx[1..]))
  {
    forall i, j | 0 <= i < j < |idx| - 1 ensures Less(Keys(idx[1..])[i], Keys(idx[1..])[j]) {
      assert Less(Keys(idx)[i + 1], Keys(idx)[j + 1]);
    }
  }

  lemma {:induction false} UpsertReplaces(idx: seq<Tuple>, pos: nat, from: Url, to: Url)
    requires Ascending(Keys(idx))
    requires pos < |idx| && Key(idx[pos]) == from.String()
    ensures Upsert(idx, from, to) == idx[pos := idx[pos].(to := to)]
  {
    if pos > 0 {
      assert Less(Keys(idx)[0], Keys(idx)[pos]);
      LessTrichotomy(Key(idx[0]), from.String());
      AscendingTail(idx);
      UpsertReplaces(idx[1..], pos - 1, from, to);
    }
  }

  lemma UpsertInFront(idx: seq<Tuple>, from: Url, to: Url)
    requires idx != [] ==> Less(from.String(), Key(idx[0]))
    ensures Upsert(idx, from, to) == [Tuple(from, to)] + idx
  {
    if idx != [] {
      LessTrichotomy(Key(idx[0]), from.String());
    }
  }

  lemma UpsertWalksOn(idx: seq<Tuple>, from: Url, to: Url)
    requires idx != [] && Less(Key(idx[0]), from.String())
    ensures Upsert(idx, from, to) == [idx[0]] + Upsert(idx[1..], from, to)
  {
    LessTrichotomy(Key(idx[0]), from.String());
  }

  lemma SpliceBehindHead(idx: seq<Tuple>, pos: nat, e: Tuple)
    requires 0 < pos <= |idx|
    ensures [idx[0]] + (idx[1..][..pos - 1] + [e] + idx[1..][pos - 1..]) == idx[..pos] + [e] + idx[pos..]
  {
  }

  lemma {:induction false} UpsertSplices(idx: seq<Tuple>, pos: nat, from: Url, to: Url)
    requires pos <= |idx|
    requires forall i :: 0 <= i < pos ==> Less(Keys(idx)[i], from.String())
    requires pos < |idx| ==> Less(from.String(), Keys(idx)[pos])
    ensures Upsert(idx, from, to) == idx[..pos] + [Tuple(from, to)] + idx[pos..]
  {
    if pos == 0 {
      UpsertInFront(idx, from, to);
    } else {
      assert Less(Keys(idx)[0], from.String());
      assert Keys(idx[1..]) == Keys(idx)[1..];
      UpsertWalksOn(idx, from, to);
      UpsertSplices(idx[1..], pos - 1, from, to);
      SpliceBehindHead(idx, pos, Tuple(from, to));
    }
  }

  /** Search and splice do what the plain walk does. */
  lemma PlaceIsUpsert(idx: seq<Tuple>, found: bool, nearest: nat, from: Url, to: Url)
    requires Ascending(Keys(idx))
    requires Located(idx, from.String(), found, nearest)
    ensures Place(idx, found, nearest, from, to) == Upsert(idx, from, to)
  {
    var keys := Keys(idx);
    if found {
      UpsertReplaces(idx, nearest, from, to);
    } else {
      LessTrichotomy(keys[nearest], from.String());
      var pos := if Less(keys[nearest], from.String()) then nearest + 1 else nearest;
      UpsertSplices(idx, pos, from, to);
    }
  }

  /** A write keeps the slice strictly sorted, so free of duplicates. */
  lemma {:induction false} UpsertKeepsAscending(idx: seq<Tuple>, from: Url, to: Url)
    requires Ascending(Keys(idx))
    ensures Ascending(Keys(Upsert(idx, from, to)))
    ensures forall k :: k in Keys(Upsert(idx, from, to)) ==> k == from.String() || k in Keys(idx)
  {
    if idx != [] {
      var keys, key, out := Keys(idx), from.String(), Upsert(idx, from, to);
      LessTrichotomy(keys[0], key);
      if keys[0] == key {
        assert Keys(out) == keys;
      } else if Less(key, keys[0]) {
        assert Keys(out) == [key] + keys;
        forall j | 0 < j < |keys| ensures Less(key, keys[j]) {
          LessTransitive(key, keys[0], keys[j]);
        }
      } else {
        AscendingTail(idx);
        UpsertKeepsAscending(idx[1..], from, to);
        var rest := Keys(Upsert(idx[1..], from, to));
        assert Keys(out) == [keys[0]] + rest;
        assert Keys(idx[1..]) == keys[1..];
        forall j | 0 <= j < |rest| ensures Less(keys[0], rest[j]) {
          assert rest[j] in rest;
        }
      }
    }
  }

  /** As a map, a write into the slice is one assignment. */
  lemma {:induction false} UpsertAssigns(idx: seq<Tuple>, from: Url, to: Url)
    ensures Contents(Upsert(idx, from, to)) == Contents(idx)[from.String() := to]
  {
    if idx == [] {
      assert Upsert(idx, from, to)[1..] == [];
    } else {
      var out := Upsert(idx, from, to);
      if Key(idx[0]) == from.String() {
        assert out[1..] == idx[1..];
      } else if Less(from.String(), Key(idx[0])) {
        assert out[1..] == idx;
      } else {
        UpsertAssigns(idx[1..], from, to);
        assert out[1..] == Upsert(idx[1..], from, to);
      }
    }
  }

  /** Everything a write owes its caller. */
  lemma PlaceIsCorrect(idx: seq<Tuple>, found: bool, nearest: nat, from: Url, to: Url)
    requires Ascending(Keys(idx))
    requires Located(idx, from.String(), found, nearest)
    ensures var out := Place(idx, found, nearest, from, to);
            && out == Upsert(idx, from, to)
            && Ascending(Keys(out))
            && Contents(out) == Contents(idx)[from.String() := to]
  {
    PlaceIsUpsert(idx, found, nearest, from, to);
    UpsertKeepsAscending(idx, from, to);
    UpsertAssigns(idx, from, to);
  }

  lemma FirstWrite(from: Url, to: Url)
    ensures var out := [Tuple(from, to)];
            && out == Upsert([], from, to)
            && Ascending(Keys(out))
            && Contents(out) == Contents([])[from.String() := to]
  {
    UpsertAssigns([], from, to);
  }

  /** The map has exactly the keys of the slice. */
  lemma {:induction false} ContentsKeys(idx: seq<Tuple>, key: string)
    ensures key in Contents(idx) <==> key in Keys(idx)
  {
    if idx != [] {
      ContentsKeys(idx[1..], key);
      assert Keys(idx) == [Key(idx[0])] + Keys(idx[1..]);
    }
  }

  /** The first entry for a key is the one the map has. */
  lemma {:induction false} ContentsFirst(idx: seq<Tuple>, pos: nat)
    requires pos < |idx|
    requires forall i :: 0 <= i < pos ==> Keys(idx)[i] != Key(idx[pos])
    ensures Key(idx[pos]) in Contents(idx)
    ensures Contents(idx)[Key(idx[pos])] == idx[pos].to
  {
    if pos > 0 {
      forall i | 0 <= i < pos - 1 ensures Keys(idx[1..])[i] != Key(idx[pos]) {
        assert Keys(idx)[i + 1] != Key(idx[pos]);
      }
      ContentsFirst(idx[1..], pos - 1);
      assert Keys(idx)[0] != Key(idx[pos]);
    }
  }

  /** A finished search answers what the map holds for the key. */
  lemma LocatedAnswers(idx: seq<Tuple>, key: string, found: bool, nearest: nat)
    requires Ascending(Keys(idx))
    requires Located(idx, key, found, nearest)
    ensures found <==> key in Contents(idx)
    ensures found ==> Contents(idx)[key] == idx[nearest].to
  {
    if found {
      forall i | 0 <= i < nearest ensures Keys(idx)[i] != key {
        LessTrichotomy(Keys(idx)[i], key);
      }
      ContentsFirst(idx, nearest);
    } else {
      NearestIsAbsent(Keys(idx), key, nearest);
      ContentsKeys(idx, key);
    }
  }
}
