/** Go's `<` on strings: byte-wise lexicographic order. One `char` stands for one byte. */
module Lexical {

  predicate Less(a: string, b: string) {
    if b == [] then false
    else if a == [] then true
    else a[0] < b[0] || (a[0] == b[0] && Less(a[1..], b[1..]))
  }

  /** The two strings first differ at position i: one of them ends there, or the characters decide. */
  ghost predicate DifferAt(a: string, b: string, i: nat) {
    && i <= |a| && i < |b|
    && a[..i] == b[..i]
    && (i == |a| || a[i] < b[i])
  }

  lemma DifferAtHead(a: string, b: string, i: nat)
    requires a != "" && b != ""
    ensures DifferAt(a, b, i) ==> a[0] <= b[0]
  {
    if DifferAt(a, b, i) && i > 0 {
      assert a[..i][0] == b[..i][0];
    }
  }

  /** The recursive order is decided by the first position at which the strings differ. */
  lemma {:induction false} LessIffFirstDifference(a: string, b: string)
    ensures Less(a, b) <==> exists i: nat :: DifferAt(a, b, i)
  {
    if b == [] {
    } else if a == [] {
      assert DifferAt(a, b, 0);
    } else if a[0] != b[0] {
      forall i: nat ensures DifferAt(a, b, i) ==> a[0] <= b[0] {
        DifferAtHead(a, b, i);
      }
      if a[0] < b[0] {
        assert DifferAt(a, b, 0);
      }
    } else {
      LessIffFirstDifference(a[1..], b[1..]);
      if Less(a, b) {
        var i: nat :| DifferAt(a[1..], b[1..], i);
        assert a[..i + 1] == [a[0]] + a[1..][..i];
        assert b[..i + 1] == [b[0]] + b[1..][..i];
        assert DifferAt(a, b, i + 1);
      }
      if i: nat :| DifferAt(a, b, i) {
        assert i > 0;
        assert a[1..][..i - 1] == a[..i][1..];
        assert b[1..][..i - 1] == b[..i][1..];
        assert DifferAt(a[1..], b[1..], i - 1);
      }
    }
  }

  lemma {:induction false} LessTransitive(a: string, b: string, c: string)
    requires Less(a, b) && Less(b, c)
    ensures Less(a, c)
  {
    if a != [] && a[0] == b[0] == c[0] {
      LessTransitive(a[1..], b[1..], c[1..]);
    }
  }

  /** Exactly one of `a < b`, `a == b`, `b < a` holds. */
  lemma {:induction false} LessTrichotomy(a: string, b: string)
    ensures a == b ==> !Less(a, b)
    ensures a != b ==> Less(a, b) != Less(b, a)
  {
    if a != [] && b != [] {
      assert a == [a[0]] + a[1..] && b == [b[0]] + b[1..];
      LessTrichotomy(a[1..], b[1..]);
    }
  }
}
