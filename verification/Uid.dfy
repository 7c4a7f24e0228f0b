/** Slugs: a type byte and a payload, read as one big-endian number and written in base 62. */
module Uid {
  import opened Wrappers

  newtype byte = x: int | 0 <= x < 256

  const TYPE_RANDOM: byte := 1
  const TYPE_FAILS: byte := 90
  const TYPE_STATIC: byte := 91

  /** The digits of Go's `big.Int.Text(62)`: 0 to 9, a to z, A to Z. */
  function Digit(v: nat): char
    requires v < 62
  {
    if v < 10 then ('0' as int + v) as char
    else if v < 36 then ('a' as int + v - 10) as char
    else ('A' as int + v - 36) as char
  }

  /** `big.Int.SetBytes`: a big-endian number in base 256. */
  function FromBytes(bytes: seq<byte>): nat {
    if bytes == [] then 0 else 256 * FromBytes(bytes[..|bytes| - 1]) + bytes[|bytes| - 1] as nat
  }

  /** `big.Int.Bytes`: the shortest such number. */
  function ToBytes(n: nat): seq<byte> {
    if n == 0 then [] else ToBytes(n / 256) + [(n % 256) as byte]
  }

  /** The digits of a number in base 62, without any for zero. */
  function Digits(n: nat): string {
    if n == 0 then "" else Digits(n / 62) + [Digit(n % 62)]
  }

  /** `big.Int.Text(62)`. */
  function Text(n: nat): string {
    if n == 0 then "0" else Digits(n)
  }

  /** The value of a digit; 62 for a character that is none. */
  function DigitValue(c: char): nat {
    if '0' <= c <= '9' then c as nat - '0' as nat
    else if 'a' <= c <= 'z' then c as nat - 'a' as nat + 10
    else if 'A' <= c <= 'Z' then c as nat - 'A' as nat + 36
    else 62
  }

  /** `big.Int.SetString(_, 62)` on strings of digits. */
  function FromText(s: string): nat {
    if s == "" then 0 else 62 * FromText(s[..|s| - 1]) + DigitValue(s[|s| - 1])
  }

  // ---------------------------------------------------------------------------------------------
  // The generator
  // ---------------------------------------------------------------------------------------------

  datatype Error = Failed

  /** What the random number source delivers: three bytes, or an error. */
  datatype Entropy = Bytes(b0: byte, b1: byte, b2: byte) | Unavailable

  /** The payload of each known type of slug. */
  function Payload(t: byte, entropy: Entropy): Result<seq<byte>, Error> {
    if t == TYPE_RANDOM then
      if entropy.Bytes? then Ok([entropy.b0, entropy.b1, entropy.b2]) else Err(Failed)
    else if t == TYPE_STATIC then Ok([0, 0, 0, 0])
    else Err(Failed)
  }

  datatype Generator = Generator(t: byte) {

    /** The slug for the next link. */
    function ID(entropy: Entropy): Result<string, Error> {
      var payload := Payload(t, entropy);
      if payload.Err? then Err(Failed) else Ok(Text(FromBytes([t] + payload.value)))
    }
  }

  /** `New`; Go panics where this is None. */
  function New(t: byte): Option<Generator> {
    if t in {TYPE_RANDOM, TYPE_FAILS, TYPE_STATIC} then Some(Generator(t)) else None
  }

  // ---------------------------------------------------------------------------------------------
  // Powers and bounds
  // ---------------------------------------------------------------------------------------------

  function Pow(b: nat, n: nat): nat {
    if n == 0 then 1 else b * Pow(b, n - 1)
  }

  /** The first byte decides the size of the number. */
  lemma {:induction false} FromBytesBounds(t: byte, payload: seq<byte>)
    ensures t as nat * Pow(256, |payload|) <= FromBytes([t] + payload) < (t as nat + 1) * Pow(256, |payload|)
  {
    var bytes := [t] + payload;
    if payload == [] {
      assert bytes[..0] == [];
    } else {
      var n := |payload| - 1;
      assert bytes[..|bytes| - 1] == [t] + payload[..n];
      FromBytesBounds(t, payload[..n]);
      var p, v := Pow(256, n), FromBytes([t] + payload[..n]);
      assert Pow(256, n + 1) == 256 * p;
      assert t as nat * (256 * p) == 256 * (t as nat * p);
      assert (t as nat + 1) * (256 * p) == 256 * ((t as nat + 1) * p);
      assert v + 1 <= (t as nat + 1) * p;
    }
  }

  /** A text of L digits stands for a number from 62^(L-1) up to, but not including, 62^L. */
  lemma {:induction false} DigitsLength(n: nat)
    requires n > 0
    ensures |Digits(n)| > 0
    ensures Pow(62, |Digits(n)| - 1) <= n < Pow(62, |Digits(n)|)
  {
    if n / 62 > 0 {
      DigitsLength(n / 62);
    }
  }

  lemma {:induction false} PowGrows(b: nat, m: nat, n: nat)
    requires b > 0 && m <= n
    ensures Pow(b, m) <= Pow(b, n)
  {
    if m < n {
      PowGrows(b, m, n - 1);
      assert Pow(b, n - 1) <= b * Pow(b, n - 1);
    }
  }

  lemma PowersDecide(b: nat, n: nat, l: nat, len: nat)
    requires b > 0 && l > 0 && len > 0
    requires Pow(b, l - 1) <= n < Pow(b, l)
    ensures l == len <==> Pow(b, len - 1) <= n < Pow(b, len)
  {
    if l < len {
      PowGrows(b, l, len - 1);
    } else if len < l {
      PowGrows(b, len, l - 1);
    }
  }

  /** The length of a text is determined by the powers of 62 its number lies between. */
  lemma LengthIsExact(n: nat, len: nat)
    requires n > 0 && len > 0
    ensures |Text(n)| == len <==> Pow(62, len - 1) <= n < Pow(62, len)
  {
    DigitsLength(n);
    PowersDecide(62, n, |Digits(n)|, len);
  }

  // ---------------------------------------------------------------------------------------------
  // Round trips
  // ---------------------------------------------------------------------------------------------

  lemma DigitRoundTrip(v: nat)
    requires v < 62
    ensures DigitValue(Digit(v)) == v
  {
  }

  lemma {:induction false} TextRoundTrip(n: nat)
    ensures FromText(Digits(n)) == n
    ensures FromText(Text(n)) == n
  {
    if n > 0 {
      var s := Digits(n);
      assert s[..|s| - 1] == Digits(n / 62);
      TextRoundTrip(n / 62);
      DigitRoundTrip(n % 62);
    } else {
      assert FromText("0") == 62 * FromText("") + 0;
    }
  }

  lemma {:induction false} PowPositive(b: nat, n: nat)
    requires b > 0
    ensures Pow(b, n) > 0
  {
    if n > 0 {
      PowPositive(b, n - 1);
    }
  }

  /** Reading bytes as a number loses nothing if they do not start with a zero. */
  lemma {:induction false} BytesRoundTrip(bytes: seq<byte>)
    requires bytes != [] ==> bytes[0] != 0
    ensures ToBytes(FromBytes(bytes)) == bytes
  {
    if bytes != [] {
      var front, last := bytes[..|bytes| - 1], bytes[|bytes| - 1];
      BytesRoundTrip(front);
      FromBytesBounds(bytes[0], bytes[1..]);
      assert bytes == [bytes[0]] + bytes[1..];
      PowPositive(256, |bytes| - 1);
      assert FromBytes(bytes) > 0;
      assert FromBytes(bytes) / 256 == FromBytes(front) && FromBytes(bytes) % 256 == last as nat;
      assert bytes == front + [last];
    }
  }

  /** A character that can stand in a slug. */
  predicate IsDigit(c: char) {
    DigitValue(c) < 62
  }

  lemma {:induction false} DigitsAreDigits(n: nat)
    ensures forall i :: 0 <= i < |Digits(n)| ==> IsDigit(Digits(n)[i])
    ensures n > 0 ==> Digits(n) != "" && Digits(n)[0] != '0'
  {
    if n > 0 {
      DigitsAreDigits(n / 62);
      DigitRoundTrip(n % 62);
      if n / 62 == 0 {
        assert Digits(n) == [Digit(n % 62)];
        assert DigitValue('0') == 0;
      }
    }
  }

  lemma LastDigit(q: nat, c: char)
    requires IsDigit(c) && 62 * q + DigitValue(c) > 0
    ensures Digits(62 * q + DigitValue(c)) == Digits(q) + [c]
  {
    var n, d := 62 * q + DigitValue(c), DigitValue(c);
    assert n / 62 == q && n % 62 == d;
    assert Digit(d) == c;
  }

  /** A text of digits that does not start with zero is the text of its number. */
  lemma {:induction false} CanonicalTextRoundTrip(s: string)
    requires s != "" ==> s[0] != '0'
    requires forall i :: 0 <= i < |s| ==> IsDigit(s[i])
    ensures Digits(FromText(s)) == s
  {
    if s != "" {
      var front, last := s[..|s| - 1], s[|s| - 1];
      CanonicalTextRoundTrip(front);
      if front == "" {
        assert last == s[0] && DigitValue(last) > 0;
      } else {
        assert FromText(front) != 0;
      }
      LastDigit(FromText(front), last);
      assert s == front + [last];
    }
  }

  // ---------------------------------------------------------------------------------------------
  // What a slug promises
  // ---------------------------------------------------------------------------------------------

  /** The slug of a type and a payload of any length. */
  function Slug(t: byte, payload: seq<byte>): string {
    Text(FromBytes([t] + payload))
  }

  /** A slug can be decoded back to its type and payload. */
  lemma SlugRoundTrip(t: byte, payload: seq<byte>)
    requires t != 0
    ensures ToBytes(FromText(Slug(t, payload))) == [t] + payload
  {
    TextRoundTrip(FromBytes([t] + payload));
    BytesRoundTrip([t] + payload);
  }

  /** Slugs of different types, or different payloads, even of different lengths, never collide. */
  lemma SlugsNeverCollide(t1: byte, payload1: seq<byte>, t2: byte, payload2: seq<byte>)
    requires t1 != 0 && t2 != 0
    ensures Slug(t1, payload1) == Slug(t2, payload2) <==> t1 == t2 && payload1 == payload2
  {
    SlugRoundTrip(t1, payload1);
    SlugRoundTrip(t2, payload2);
    assert ([t1] + payload1)[1..] == payload1 && ([t2] + payload2)[1..] == payload2;
    assert ([t1] + payload1)[0] == t1 && ([t2] + payload2)[0] == t2;
  }

  lemma {:induction false} LeadingZero(bytes: seq<byte>)
    ensures FromBytes([0] + bytes) == FromBytes(bytes)
  {
    var more: seq<byte> := [0] + bytes;
    if bytes == [] {
      assert more[..0] == [];
    } else {
      assert more[..|more| - 1] == [0] + bytes[..|bytes| - 1];
      LeadingZero(bytes[..|bytes| - 1]);
    }
  }

  /** The type byte is needed for that: a payload with leading zeros would lose them under type 0. */
  lemma TypeZeroCollides(payload: seq<byte>)
    ensures Slug(0, [0] + payload) == Slug(0, payload)
  {
    LeadingZero([0] + payload);
    LeadingZero(payload);
    assert [0 as byte] + ([0] + payload) == [0, 0] + payload;
  }

  /** A slug is made of digits only and never starts with zero. */
  lemma SlugIsCanonical(t: byte, payload: seq<byte>)
    requires t != 0
    ensures Slug(t, payload) != "" && Slug(t, payload)[0] != '0'
    ensures forall i :: 0 <= i < |Slug(t, payload)| ==> IsDigit(Slug(t, payload)[i])
  {
    FromBytesBounds(t, payload);
    PowPositive(256, |payload|);
    DigitsAreDigits(FromBytes([t] + payload));
  }

  /** The length of a slug depends only on its type and the length of its payload, whenever the numbers that share
      them have the same number of digits. */
  lemma SlugLength(t: byte, payload: seq<byte>, len: nat)
    requires t != 0 && len > 0
    requires Pow(62, len - 1) <= t as nat * Pow(256, |payload|)
    requires (t as nat + 1) * Pow(256, |payload|) <= Pow(62, len)
    ensures |Slug(t, payload)| == len
  {
    FromBytesBounds(t, payload);
    PowPositive(256, |payload|);
    LengthIsExact(FromBytes([t] + payload), len);
  }

  /** The known types, and which of them can make a slug: random ones, type 1, if there is entropy, and static ones,
      type 91, always. Type 90 is there to fail. */
  lemma KnownTypes(t: byte, entropy: Entropy)
    ensures New(t).Some? <==> t in {1, 90, 91}
    ensures New(t).Some? ==> New(t).value.t == t
    ensures Generator(t).ID(entropy).Ok? <==> t == 91 || (t == 1 && entropy.Bytes?)
  {
  }

  /** Every random slug has exactly five characters, and the entropy can be read back from it. */
  lemma RandomSlugs(b0: byte, b1: byte, b2: byte)
    ensures Generator(1).ID(Bytes(b0, b1, b2)).Ok? && Generator(1).ID(Unavailable).Err?
    ensures var slug := Generator(1).ID(Bytes(b0, b1, b2)).value;
            |slug| == 5 && ToBytes(FromText(slug)) == [1, b0, b1, b2]
  {
    var payload := [b0, b1, b2];
    SlugRoundTrip(1, payload);
    assert Pow(256, 3) == 256 * (256 * (256 * Pow(256, 0)));
    assert Pow(62, 5) == 62 * (62 * (62 * (62 * (62 * Pow(62, 0)))));
    SlugLength(1, payload, 5);
  }

  lemma FromBytesAppend(bytes: seq<byte>, b: byte)
    ensures FromBytes(bytes + [b]) == 256 * FromBytes(bytes) + b as nat
  {
    assert (bytes + [b])[..|bytes|] == bytes;
  }

  lemma DigitsAppend(n: nat, d: nat, front: string)
    requires d < 62 && 62 * n + d > 0 && Digits(n) == front
    ensures Digits(62 * n + d) == front + [Digit(d)]
  {
  }

  lemma StaticNumber()
    ensures FromBytes([91, 0, 0, 0, 0]) == 390842023936
  {
    FromBytesAppend([], 91);
    assert [] + [91 as byte] == [91];
    FromBytesAppend([91], 0);
    assert [91 as byte] + [0] == [91, 0];
    FromBytesAppend([91, 0], 0);
    assert [91 as byte, 0] + [0] == [91, 0, 0];
    FromBytesAppend([91, 0, 0], 0);
    assert [91 as byte, 0, 0] + [0] == [91, 0, 0, 0];
    FromBytesAppend([91, 0, 0, 0], 0);
    assert [91 as byte, 0, 0, 0] + [0] == [91, 0, 0, 0, 0];
  }

  /** The one static slug, digit by digit. */
  lemma StaticSlug(entropy: Entropy)
    ensures Generator(91).ID(entropy) == Ok("6SCxiHS")
  {
    DigitsAppend(0, 6, "");
    DigitsAppend(6, 54, "6");
    DigitsAppend(426, 38, "6S");
    DigitsAppend(26450, 33, "6SC");
    DigitsAppend(1639933, 18, "6SCx");
    DigitsAppend(101675864, 43, "6SCxi");
    DigitsAppend(6303903611, 54, "6SCxiH");
    StaticNumber();
    var payload: seq<byte> := [0, 0, 0, 0];
    assert [TYPE_STATIC] + payload == [91, 0, 0, 0, 0];
    assert FromBytes([TYPE_STATIC] + payload) == 390842023936;
    assert Payload(TYPE_STATIC, entropy) == Ok(payload);
    assert Digits(390842023936) == "6SCxiHS";
    assert Text(390842023936) == "6SCxiHS";
  }
}
