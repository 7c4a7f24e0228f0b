/** The part of Go's `net/url` values that the program reads: where a link is served, and the text it prints as. */
module Urls {

  /** `text` is what `String` prints. A parsed URL may print as anything; `Served` says how the URLs print that the
      program builds itself. */
  datatype Url = Url(host: string, path: string, text: string) {
    function String(): string {
      text
    }
  }

  // ---------------------------------------------------------------------------------------------
  // Percent-encoding
  // ---------------------------------------------------------------------------------------------

  datatype Part = HostPart | PathPart

  predicate Unreserved(c: char) {
    'a' <= c <= 'z' || 'A' <= c <= 'Z' || '0' <= c <= '9' || c in {'-', '_', '.', '~'}
  }

  /** The characters that are printed as they are in this part of an URL. */
  predicate Keeps(part: Part, c: char) {
    || Unreserved(c)
    || c in {'$', '&', '+', ',', ':', ';', '='}
    || (part.HostPart? && c in {'!', '\'', '(', ')', '*', '[', ']', '<', '>', '"'})
    || (part.PathPart? && c in {'/', '@'})
  }

  function HexDigit(v: nat): char
    requires v < 16
  {
    "0123456789ABCDEF"[v]
  }

  /** One byte, percent-encoded unless it may stand for itself. */
  function Encoded(part: Part, c: char): string {
    if Keeps(part, c) then [c] else ['%', HexDigit(c as int / 16 % 16), HexDigit(c as int % 16)]
  }

  function Escape(part: Part, s: string): string {
    if s == "" then "" else Encoded(part, s[0]) + Escape(part, s[1..])
  }

  /** `URL.EscapedPath` of a path that was not parsed; a lone asterisk is left alone. */
  function EscapedPath(path: string): string {
    if path == "*" then "*" else Escape(PathPart, path)
  }

  /** Every character of the string is a byte. */
  predicate Bytewise(s: string) {
    forall i :: 0 <= i < |s| ==> s[i] as int < 256
  }

  lemma HexDigitsDiffer(v: nat, w: nat)
    requires v < 16 && w < 16
    ensures HexDigit(v) == HexDigit(w) <==> v == w
  {
  }

  lemma EncodedBytesDiffer(c: char, d: char)
    requires c as int < 256 && d as int < 256
    requires HexDigit(c as int / 16 % 16) == HexDigit(d as int / 16 % 16)
    requires HexDigit(c as int % 16) == HexDigit(d as int % 16)
    ensures c == d
  {
    HexDigitsDiffer(c as int / 16 % 16, d as int / 16 % 16);
    HexDigitsDiffer(c as int % 16, d as int % 16);
    assert c as int == d as int;
  }

  /** The same characters of the string are encoded in both parts. */
  predicate Alike(part1: Part, part2: Part, s: string) {
    forall i :: 0 <= i < |s| ==> Keeps(part1, s[i]) == Keeps(part2, s[i])
  }

  lemma EncodedIsInjective(part1: Part, c: char, part2: Part, d: char)
    requires c as int < 256 && d as int < 256
    ensures Encoded(part1, c)[0] == Encoded(part2, d)[0] ==> |Encoded(part1, c)| == |Encoded(part2, d)|
    ensures Encoded(part1, c) == Encoded(part2, d) <==> c == d && Keeps(part1, c) == Keeps(part2, d)
  {
    var e, f := Encoded(part1, c), Encoded(part2, d);
    assert !Keeps(part1, '%') && !Keeps(part2, '%');
    if e == f {
      assert e[0] == f[0];
      if !Keeps(part1, c) && !Keeps(part2, d) {
        assert e[1] == f[1] && e[2] == f[2];
        EncodedBytesDiffer(c, d);
      }
    }
  }

  lemma EscapeHead(part: Part, s: string)
    requires s != ""
    ensures Escape(part, s) != "" && Escape(part, s)[0] == Encoded(part, s[0])[0]
    ensures Escape(part, s)[..|Encoded(part, s[0])|] == Encoded(part, s[0])
    ensures Escape(part, s)[|Encoded(part, s[0])|..] == Escape(part, s[1..])
  {
  }

  lemma EscapeHeadsAgree(part1: Part, s: string, part2: Part, t: string)
    requires Bytewise(s) && Bytewise(t) && s != "" && t != ""
    ensures Escape(part1, s) == Escape(part2, t)
       <==> s[0] == t[0] && Keeps(part1, s[0]) == Keeps(part2, s[0]) && Escape(part1, s[1..]) == Escape(part2, t[1..])
  {
    EscapeHead(part1, s);
    EscapeHead(part2, t);
    EncodedIsInjective(part1, s[0], part2, t[0]);
  }

  lemma AlikeHead(part1: Part, part2: Part, s: string)
    requires s != ""
    ensures Alike(part1, part2, s) <==> Keeps(part1, s[0]) == Keeps(part2, s[0]) && Alike(part1, part2, s[1..])
  {
    if Keeps(part1, s[0]) == Keeps(part2, s[0]) && Alike(part1, part2, s[1..]) {
      forall i | 0 <= i < |s| ensures Keeps(part1, s[i]) == Keeps(part2, s[i]) {
        assert i > 0 ==> s[i] == s[1..][i - 1];
      }
    }
  }

  lemma SameByHead(s: string, t: string)
    requires s != "" && t != ""
    ensures s == t <==> s[0] == t[0] && s[1..] == t[1..]
  {
    assert s == [s[0]] + s[1..] && t == [t[0]] + t[1..];
  }

  /** Percent-encoding loses nothing: texts are printed alike only if they are the same, and the same is encoded. */
  lemma {:induction false} EscapeIsInjective(part1: Part, s: string, part2: Part, t: string)
    requires Bytewise(s) && Bytewise(t)
    ensures Escape(part1, s) == Escape(part2, t) <==> s == t && Alike(part1, part2, s)
  {
    if s != "" && t != "" {
      EscapeHeadsAgree(part1, s, part2, t);
      EscapeIsInjective(part1, s[1..], part2, t[1..]);
      AlikeHead(part1, part2, s);
      SameByHead(s, t);
    } else if s != "" {
      EscapeHead(part1, s);
    } else if t != "" {
      EscapeHead(part2, t);
    }
  }

  /** A character that is not used for encoding is in the encoded text only if it is in the text, and kept. */
  lemma {:induction false} EscapeLeavesOut(part: Part, s: string, c: char)
    requires !Unreserved(c) && c != '%'
    requires c !in s || !Keeps(part, c)
    ensures c !in Escape(part, s)
  {
    if s != "" {
      EscapeLeavesOut(part, s[1..], c);
      assert forall v: nat | v < 16 :: Unreserved(HexDigit(v));
    }
  }

  lemma {:induction false} EscapeAppend(part: Part, s: string, t: string)
    ensures Escape(part, s + t) == Escape(part, s) + Escape(part, t)
  {
    if s == "" {
      assert s + t == t;
    } else {
      assert (s + t)[1..] == s[1..] + t;
      EscapeAppend(part, s[1..], t);
    }
  }

  // ---------------------------------------------------------------------------------------------
  // What encoding is, seen from the other side
  // ---------------------------------------------------------------------------------------------

  /** The value of a hexadecimal digit, in upper case as section 2.1 of RFC 3986 recommends; 16 for any other
      character. */
  function HexValue(c: char): nat {
    if '0' <= c <= '9' then c as nat - '0' as nat
    else if 'A' <= c <= 'F' then c as nat - 'A' as nat + 10
    else 16
  }

  function Decode(s: string): string {
    if s == "" then ""
    else if s[0] == '%' && |s| > 2 && HexValue(s[1]) < 16 && HexValue(s[2]) < 16 then
      [(16 * HexValue(s[1]) + HexValue(s[2])) as char] + Decode(s[3..])
    else [s[0]] + Decode(s[1..])
  }

  /** A character is printed as it is exactly in these cases. */
  lemma KeepsExactly(part: Part, c: char)
    ensures Encoded(part, c) == [c]
       <==> || 'a' <= c <= 'z' || 'A' <= c <= 'Z' || '0' <= c <= '9'
            || c in {'-', '_', '.', '~', '$', '&', '+', ',', ':', ';', '='}
            || (part.HostPart? && c in {'!', '\'', '(', ')', '*', '[', ']', '<', '>', '"'})
            || (part.PathPart? && c in {'/', '@'})
  {
  }

  /** And otherwise as its two digits. */
  lemma EncodesExactly(part: Part, c: char)
    requires c as int < 256 && Encoded(part, c) != [c]
    ensures |Encoded(part, c)| == 3 && Encoded(part, c)[0] == '%'
    ensures HexValue(Encoded(part, c)[1]) == c as int / 16 && HexValue(Encoded(part, c)[2]) == c as int % 16
  {
  }

  lemma DecodeHead(part: Part, c: char, rest: string)
    requires c as int < 256
    ensures Decode(Encoded(part, c) + rest) == [c] + Decode(rest)
  {
    var e := Encoded(part, c);
    var s := e + rest;
    assert s[|e|..] == rest;
    if Keeps(part, c) {
      assert c != '%';
    } else {
      EncodesExactly(part, c);
      assert (16 * (c as int / 16) + c as int % 16) as char == c;
      assert s[1] == e[1] && s[2] == e[2];
    }
  }

  /** Decoding gives back what was encoded. */
  lemma {:induction false} EscapeRoundTrip(part: Part, s: string)
    requires Bytewise(s)
    ensures Decode(Escape(part, s)) == s
  {
    if s != "" {
      EscapeRoundTrip(part, s[1..]);
      DecodeHead(part, s[0], Escape(part, s[1..]));
      assert s == [s[0]] + s[1..];
    }
  }

  lemma {:induction false} EscapeKeeps(part: Part, s: string)
    requires forall i :: 0 <= i < |s| ==> Keeps(part, s[i])
    ensures Escape(part, s) == s
  {
    if s != "" {
      EscapeKeeps(part, s[1..]);
      assert s == [s[0]] + s[1..];
    }
  }

  // ---------------------------------------------------------------------------------------------
  // URLs that the program builds
  // ---------------------------------------------------------------------------------------------

  /** A path up to its first slash. */
  function FirstSegment(path: string): string {
    if path == "" || path[0] == '/' then "" else [path[0]] + FirstSegment(path[1..])
  }

  /** A relative path that would be read as starting with a scheme. */
  predicate NeedsDot(path: string) {
    ':' in FirstSegment(path)
  }

  /** A path with the leading slash that printing adds under a host. */
  function Rooted(path: string): string {
    if path != "" && path[0] != '/' then "/" + path else path
  }

  /** An URL built from just a host and a path, as the API and the redirect handler do: no scheme, and the authority
      part is printed only when there is a host. */
  function Served(host: string, path: string): Url {
    var escaped := EscapedPath(path);
    Url(host, path,
        if host != "" then "//" + (Escape(HostPart, host) + Rooted(escaped))
        else if NeedsDot(escaped) then "./" + escaped
        else escaped)
  }

  /** Paths that print alike under a host: they differ at most in a leading slash. The lone asterisk, which is not
      encoded, is like no other path. */
  predicate SamePath(p: string, q: string) {
    p == q || (p != "*" && q != "*" && Rooted(p) == Rooted(q))
  }

  lemma SplitAtSlash(h1: string, h2: string, p1: string, p2: string)
    requires '/' !in h1 && '/' !in h2
    requires p1 == "" || p1[0] == '/'
    requires p2 == "" || p2[0] == '/'
    requires h1 + p1 == h2 + p2
    ensures h1 == h2 && p1 == p2
  {
    var s := h1 + p1;
    assert |h1| < |s| ==> s[|h1|] == '/';
    assert |h2| < |s| ==> s[|h2|] == '/';
    assert forall i :: 0 <= i < |h1| ==> s[i] in h1;
    assert forall i :: 0 <= i < |h2| ==> s[i] in h2;
    assert h1 == s[..|h1|] && h2 == s[..|h2|];
    assert p1 == s[|h1|..] && p2 == s[|h2|..];
  }

  /** Adding the slash before or after encoding makes no difference. */
  lemma RootedEscape(path: string)
    ensures Rooted(Escape(PathPart, path)) == Escape(PathPart, Rooted(path))
  {
    if path != "" {
      assert Encoded(PathPart, path[0])[0] == '/' <==> path[0] == '/';
      if path[0] != '/' {
        assert ("/" + path)[1..] == path;
      }
    }
  }

  /** A lone asterisk is printed like no other path. */
  lemma AsteriskIsAlone(q: string)
    requires Bytewise(q) && q != "*"
    ensures Rooted(EscapedPath(q)) != "/*"
  {
    RootedEscape(q);
    EscapeLeavesOut(PathPart, Rooted(q), '*');
    assert "/*"[1] == '*';
  }

  lemma RootedEscapeIsInjective(p: string, q: string)
    requires Bytewise(p) && Bytewise(q)
    ensures Rooted(Escape(PathPart, p)) == Rooted(Escape(PathPart, q)) <==> Rooted(p) == Rooted(q)
  {
    RootedEscape(p);
    RootedEscape(q);
    EscapeIsInjective(PathPart, Rooted(p), PathPart, Rooted(q));
  }

  lemma PathsPrintAlike(p: string, q: string)
    requires Bytewise(p) && Bytewise(q)
    ensures Rooted(EscapedPath(p)) == Rooted(EscapedPath(q)) <==> SamePath(p, q)
  {
    if p == "*" && q != "*" {
      AsteriskIsAlone(q);
    } else if p != "*" && q == "*" {
      AsteriskIsAlone(p);
    } else if p != "*" {
      RootedEscapeIsInjective(p, q);
    }
  }

  /** The part before the first slash, and the rest. */
  lemma {:induction false} FirstSegmentSplits(s: string)
    ensures |FirstSegment(s)| <= |s| && s == FirstSegment(s) + s[|FirstSegment(s)|..]
    ensures '/' !in FirstSegment(s)
    ensures |FirstSegment(s)| < |s| ==> s[|FirstSegment(s)|] == '/'
  {
    if s != "" && s[0] != '/' {
      FirstSegmentSplits(s[1..]);
      assert s[|FirstSegment(s)|..] == s[1..][|FirstSegment(s[1..])|..];
      assert s == [s[0]] + s[1..];
    }
  }

  /** How an URL prints in which nothing has to be encoded. */
  lemma ServedPrints(host: string, path: string)
    requires forall i :: 0 <= i < |host| ==> Keeps(HostPart, host[i])
    requires forall i :: 0 <= i < |path| ==> Keeps(PathPart, path[i])
    ensures Served(host, path).host == host && Served(host, path).path == path
    ensures host != "" ==>
      Served(host, path).String() == "//" + (host + (if path == "" || path[0] == '/' then path else "/" + path))
    ensures host == "" && ':' !in path ==> Served(host, path).String() == path
  {
    EscapeKeeps(HostPart, host);
    EscapeKeeps(PathPart, path);
    FirstSegmentSplits(path);
    assert ':' in FirstSegment(path) ==> ':' in path;
  }

  // ---------------------------------------------------------------------------------------------
  // Which of them share an index key
  // ---------------------------------------------------------------------------------------------

  lemma HostedKeysAgree(host1: string, path1: string, host2: string, path2: string)
    requires Bytewise(host1) && Bytewise(path1) && Bytewise(host2) && Bytewise(path2)
    requires host1 != "" && host2 != ""
    ensures Served(host1, path1).String() == Served(host2, path2).String()
       <==> host1 == host2 && SamePath(path1, path2)
  {
    var h1, h2 := Escape(HostPart, host1), Escape(HostPart, host2);
    var p1, p2 := Rooted(EscapedPath(path1)), Rooted(EscapedPath(path2));
    var s1, s2 := Served(host1, path1).String(), Served(host2, path2).String();
    assert s1[2..] == h1 + p1 && s2[2..] == h2 + p2;
    EscapeLeavesOut(HostPart, host1, '/');
    EscapeLeavesOut(HostPart, host2, '/');
    if s1 == s2 {
      SplitAtSlash(h1, h2, p1, p2);
      EscapeIsInjective(HostPart, host1, HostPart, host2);
    }
    PathsPrintAlike(path1, path2);
  }

  lemma SegmentGrows(c: char, rest: string)
    requires c != '/'
    ensures FirstSegment([c] + rest) == [c] + FirstSegment(rest)
  {
    assert ([c] + rest)[1..] == rest;
  }

  lemma EncodedSegmentGrows(c: char, rest: string)
    requires c != '/'
    ensures ':' in FirstSegment(Encoded(PathPart, c) + rest) <==> c == ':' || ':' in FirstSegment(rest)
  {
    if Keeps(PathPart, c) {
      SegmentGrows(c, rest);
    } else {
      var v, w := HexDigit(c as int / 16 % 16), HexDigit(c as int % 16);
      assert Unreserved(v) && Unreserved(w);
      SegmentGrows('%', [v] + ([w] + rest));
      SegmentGrows(v, [w] + rest);
      SegmentGrows(w, rest);
      assert Encoded(PathPart, c) + rest == ['%'] + ([v] + ([w] + rest));
    }
  }

  lemma {:induction false} EscapeKeepsColons(path: string)
    ensures NeedsDot(Escape(PathPart, path)) <==> NeedsDot(path)
  {
    if path != "" && path[0] != '/' {
      EscapeKeepsColons(path[1..]);
      EncodedSegmentGrows(path[0], Escape(PathPart, path[1..]));
    }
  }

  lemma EscapedPathIsInjective(p: string, q: string)
    requires Bytewise(p) && Bytewise(q)
    ensures EscapedPath(p) == EscapedPath(q) <==> p == q
  {
    EscapeIsInjective(PathPart, p, PathPart, q);
    EscapeLeavesOut(PathPart, p, '*');
    EscapeLeavesOut(PathPart, q, '*');
    assert "*"[0] == '*';
  }

  /** Paths that print alike without a host: only the "./" that printing adds can be there already. */
  predicate SameBare(p: string, q: string) {
    p == q || (NeedsDot(p) && q == "./" + p) || (NeedsDot(q) && p == "./" + q)
  }

  lemma EscapeKeepsFront(front: string, rest: string)
    requires |front| == 2 && Keeps(PathPart, front[0]) && Keeps(PathPart, front[1])
    ensures Escape(PathPart, front + rest) == front + Escape(PathPart, rest)
  {
    EscapeAppend(PathPart, front, rest);
    assert front[1..][1..] == "" && front == [front[0]] + [front[1]];
  }

  lemma DotIsNotNeededTwice(p: string)
    ensures !NeedsDot("./" + p)
  {
    SegmentGrows('.', "/" + p);
    assert "./" + p == "." + ("/" + p);
  }

  lemma DottedPath(p: string, q: string)
    requires Bytewise(p) && Bytewise(q) && p != "*"
    ensures "./" + EscapedPath(p) == EscapedPath(q) <==> q == "./" + p
  {
    EscapeKeepsFront("./", p);
    EscapedPathIsInjective("./" + p, q);
  }

  lemma BareKeysAgree(p: string, q: string)
    requires Bytewise(p) && Bytewise(q)
    ensures Served("", p).String() == Served("", q).String() <==> SameBare(p, q)
  {
    EscapeKeepsColons(p);
    EscapeKeepsColons(q);
    EscapedPathIsInjective(p, q);
    assert !NeedsDot("*");
    if NeedsDot(p) {
      DottedPath(p, q);
      DotIsNotNeededTwice(p);
      assert Served("", p).String()[2..] == EscapedPath(p);
    }
    if NeedsDot(q) {
      DottedPath(q, p);
      DotIsNotNeededTwice(q);
      assert Served("", q).String()[2..] == EscapedPath(q);
    }
  }

  /** A path that without a host prints as this host and path. */
  predicate PassesFor(bare: string, host: string, path: string) {
    bare == "//" + (host + Rooted(path)) && path != "*" && Alike(PathPart, HostPart, host)
  }

  lemma PrintsAsHosted(host: string, path: string)
    requires Bytewise(host) && Bytewise(path) && host != ""
    requires path != "*" && Alike(PathPart, HostPart, host)
    ensures Served("", "//" + (host + Rooted(path))).String() == Served(host, path).String()
  {
    var bare := "//" + (host + Rooted(path));
    EscapeKeepsFront("//", host + Rooted(path));
    EscapeAppend(PathPart, host, Rooted(path));
    EscapeIsInjective(PathPart, host, HostPart, host);
    RootedEscape(path);
    assert EscapedPath(bare)[0] == '/';
  }

  lemma LeadingSlash(s: string)
    requires Escape(PathPart, s) != "" && Escape(PathPart, s)[0] == '/'
    ensures s != "" && s[0] == '/' && Escape(PathPart, s[1..]) == Escape(PathPart, s)[1..]
  {
    EscapeHead(PathPart, s);
  }

  lemma LeadingSlashes(s: string, rest: string)
    requires Escape(PathPart, s) == "//" + rest
    ensures |s| >= 2 && s[..2] == "//" && Escape(PathPart, s[2..]) == rest
  {
    var e := Escape(PathPart, s);
    assert e[..2] == "//" && e[1..][1..] == rest;
    LeadingSlash(s);
    LeadingSlash(s[1..]);
    assert s[1..][1..] == s[2..];
  }

  lemma EscapeKeepsSlash(path: string)
    requires path == "" || path[0] == '/'
    ensures Escape(PathPart, path) == "" || Escape(PathPart, path)[0] == '/'
  {
  }

  lemma EscapeAddsNoSlash(part: Part, host: string)
    requires part.HostPart? || '/' !in host
    ensures '/' !in Escape(part, host)
  {
    EscapeLeavesOut(part, host, '/');
  }

  /** What is printed as a host and a path can be taken apart again. */
  lemma HostAndPathOf(host1: string, path1: string, host2: string, path2: string)
    requires Bytewise(host1) && Bytewise(path1) && Bytewise(host2) && Bytewise(path2)
    requires '/' !in host1 && (path1 == "" || path1[0] == '/') && (path2 == "" || path2[0] == '/')
    requires Escape(PathPart, host1) + Escape(PathPart, path1) == Escape(HostPart, host2) + Escape(PathPart, path2)
    ensures host1 == host2 && path1 == path2 && Alike(PathPart, HostPart, host2)
  {
    EscapeAddsNoSlash(PathPart, host1);
    EscapeAddsNoSlash(HostPart, host2);
    EscapeKeepsSlash(path1);
    EscapeKeepsSlash(path2);
    SplitAtSlash(Escape(PathPart, host1), Escape(HostPart, host2), Escape(PathPart, path1), Escape(PathPart, path2));
    EscapeIsInjective(PathPart, host1, HostPart, host2);
    EscapeIsInjective(PathPart, path1, PathPart, path2);
  }

  lemma AsteriskPrints(host: string)
    requires host != ""
    ensures '*' in Served(host, "*").String()
  {
    assert Rooted("*")[1] == '*';
  }

  lemma HostAndPathIn(rest: string, host: string, path: string)
    requires Bytewise(rest) && Bytewise(host) && Bytewise(path)
    requires Escape(PathPart, rest) == Escape(HostPart, host) + Escape(PathPart, path)
    requires path == "" || path[0] == '/'
    ensures rest == host + path && Alike(PathPart, HostPart, host)
  {
    FirstSegmentSplits(rest);
    var a, b := FirstSegment(rest), rest[|FirstSegment(rest)|..];
    EscapeAppend(PathPart, a, b);
    HostAndPathOf(a, b, host, path);
  }

  lemma HostedPrintIsBare(bare: string, host: string, path: string)
    requires Bytewise(bare) && Bytewise(host) && Bytewise(path) && host != ""
    requires path != "*" && EscapedPath(bare) == Served(host, path).String()
    ensures PassesFor(bare, host, path)
  {
    var printed := Escape(HostPart, host) + Rooted(Escape(PathPart, path));
    assert EscapedPath(bare) == "//" + printed;
    assert bare != "*";
    LeadingSlashes(bare, printed);
    RootedEscape(path);
    HostAndPathIn(bare[2..], host, Rooted(path));
    assert bare == bare[..2] + bare[2..];
  }

  /** What a host is worth: without one, a path with two slashes in front can print as a host and a path; exactly those
      do that spell out both, if all of the host is encoded in a path as it is in a host. */
  lemma EmptyHostAliases(bare: string, host: string, path: string)
    requires Bytewise(bare) && Bytewise(host) && Bytewise(path) && host != ""
    ensures Served("", bare).String() == Served(host, path).String() <==> PassesFor(bare, host, path)
  {
    if path == "*" {
      AsteriskPrints(host);
      EscapeLeavesOut(PathPart, bare, '*');
    } else if Served("", bare).String() == Served(host, path).String() {
      assert Served("", bare).String()[0] == '/';
      HostedPrintIsBare(bare, host, path);
    } else if PassesFor(bare, host, path) {
      PrintsAsHosted(host, path);
    }
  }

  /** Served URLs that share an index key. With hosts, both must be the same, the path up to a missing leading slash.
      Without a host, there are two ways to be mistaken: for a path with the "./" that printing adds, and, if there are
      two slashes in front, for a host and a path. */
  predicate SameServed(host1: string, path1: string, host2: string, path2: string) {
    if host1 != "" && host2 != "" then host1 == host2 && SamePath(path1, path2)
    else if host1 != "" then PassesFor(path2, host1, path1)
    else if host2 != "" then PassesFor(path1, host2, path2)
    else SameBare(path1, path2)
  }

  lemma ServedKeysAgree(host1: string, path1: string, host2: string, path2: string)
    requires Bytewise(host1) && Bytewise(path1) && Bytewise(host2) && Bytewise(path2)
    ensures Served(host1, path1).String() == Served(host2, path2).String() <==> SameServed(host1, path1, host2, path2)
  {
    if host1 != "" && host2 != "" {
      HostedKeysAgree(host1, path1, host2, path2);
    } else if host1 != "" {
      EmptyHostAliases(path2, host1, path1);
    } else if host2 != "" {
      EmptyHostAliases(path1, host2, path2);
    } else {
      BareKeysAgree(path1, path2);
    }
  }
}
