/** How an URL becomes the path of a Firestore document. */
module DocumentPaths {
  import opened Urls

  const COLLECTION := "links"

  /** The parts of a path between its slashes. */
  function Split(s: string): (parts: seq<string>)
    ensures |parts| > 0
  {
    if s == "" then [""]
    else
      var rest := Split(s[1..]);
      if s[0] == '/' then [""] + rest else [[s[0]] + rest[0]] + rest[1..]
  }

  function Join(parts: seq<string>): string {
    if parts == [] then ""
    else if |parts| == 1 then parts[0]
    else parts[0] + "/" + Join(parts[1..])
  }

  /** Go's `path.Clean` on the parts of a relative path: empty parts and "." go away, and ".." takes the part before it
      along, if there is one. */
  function CleanOnto(done: seq<string>, parts: seq<string>): seq<string>
    decreases parts
  {
    if parts == [] then done
    else if parts[0] == "" || parts[0] == "." then CleanOnto(done, parts[1..])
    else if parts[0] == ".." && done != [] && done[|done| - 1] != ".." then CleanOnto(done[..|done| - 1], parts[1..])
    else CleanOnto(done + [parts[0]], parts[1..])
  }

  function Clean(path: string): string {
    var parts := CleanOnto([], Split(path));
    if parts == [] then "." else Join(parts)
  }

  /** `strings.Replace(path, "/", "+", -1)`. */
  function Plussed(path: string): string {
    if path == "" then "" else [if path[0] == '/' then '+' else path[0]] + Plussed(path[1..])
  }

  /** The document path before it is cleaned. */
  function RawPath(u: Url): string {
    COLLECTION + "/" + (u.host + (if u.path != "" then "/id/" + Plussed(u.path) else ""))
  }

  /** The document of an URL: one for the host, and one for each path under it. */
  function UrlToPath(u: Url): string {
    Clean(RawPath(u))
  }

  /** The client hands out a reference only for paths with an even number of parts: collection, document, and so on. */
  predicate HasReference(path: string) {
    |Split(path)| % 2 == 0
  }

  /** A part that `Clean` leaves alone. */
  predicate Plain(part: string) {
    '/' !in part && part !in {"", ".", ".."}
  }

  // ---------------------------------------------------------------------------------------------
  // Cleaning what is already clean
  // ---------------------------------------------------------------------------------------------

  lemma {:induction false} SplitPlain(s: string)
    requires '/' !in s
    ensures Split(s) == [s]
  {
    if s != "" {
      SplitPlain(s[1..]);
      assert s == [s[0]] + s[1..];
    }
  }

  lemma {:induction false} SplitAtSlashes(a: string, b: string)
    ensures Split(a + "/" + b) == Split(a) + Split(b)
  {
    var s := a + "/" + b;
    if a == "" {
      assert s[1..] == b;
    } else {
      assert s[1..] == a[1..] + "/" + b;
      SplitAtSlashes(a[1..], b);
    }
  }

  lemma {:induction false} PartsHaveNoSlash(s: string)
    ensures forall i :: 0 <= i < |Split(s)| ==> '/' !in Split(s)[i]
  {
    if s != "" {
      PartsHaveNoSlash(s[1..]);
    }
  }

  lemma {:induction false} SplitJoin(parts: seq<string>)
    requires parts != [] && forall i :: 0 <= i < |parts| ==> '/' !in parts[i]
    ensures Split(Join(parts)) == parts
  {
    var rest := parts[1..];
    SplitPlain(parts[0]);
    assert parts == [parts[0]] + rest;
    if rest != [] {
      SplitJoin(rest);
      SplitAtSlashes(parts[0], Join(rest));
    }
  }

  lemma {:induction false} JoinSplit(s: string)
    ensures Join(Split(s)) == s
  {
    if s != "" {
      var rest := Split(s[1..]);
      JoinSplit(s[1..]);
      if s[0] == '/' {
        assert Split(s)[1..] == rest;
      } else if |rest| > 1 {
        assert Split(s)[1..] == rest[1..];
        assert [s[0]] + rest[0] + "/" + Join(rest[1..]) == [s[0]] + (rest[0] + "/" + Join(rest[1..]));
      }
      assert s == [s[0]] + s[1..];
    }
  }

  /** The client hands out a reference for the paths with an odd number of slashes. */
  lemma {:induction false} ReferenceIff(s: string)
    ensures |Split(s)| == 1 + multiset(s)['/']
    ensures HasReference(s) <==> multiset(s)['/'] % 2 == 1
  {
    if s != "" {
      ReferenceIff(s[1..]);
      assert s == [s[0]] + s[1..];
      assert multiset(s) == multiset{s[0]} + multiset(s[1..]);
    }
  }

  lemma {:induction false} CleanPlain(done: seq<string>, parts: seq<string>)
    requires forall i :: 0 <= i < |parts| ==> Plain(parts[i])
    ensures CleanOnto(done, parts) == done + parts
    decreases parts
  {
    if parts != [] {
      CleanPlain(done + [parts[0]], parts[1..]);
      assert done + [parts[0]] + parts[1..] == done + parts;
    }
  }

  lemma {:induction false} CleanInTurn(done: seq<string>, a: seq<string>, b: seq<string>)
    ensures CleanOnto(done, a + b) == CleanOnto(CleanOnto(done, a), b)
    decreases a
  {
    if a == [] {
      assert a + b == b;
    } else {
      assert (a + b)[1..] == a[1..] + b;
      if a[0] == "" || a[0] == "." {
        CleanInTurn(done, a[1..], b);
      } else if a[0] == ".." && done != [] && done[|done| - 1] != ".." {
        CleanInTurn(done[..|done| - 1], a[1..], b);
      } else {
        CleanInTurn(done + [a[0]], a[1..], b);
      }
    }
  }

  /** The shape of a cleaned path: it goes up some number of times, and then down. */
  ghost predicate Canonical(parts: seq<string>) {
    && (forall i :: 0 <= i < |parts| ==> parts[i] == ".." || Plain(parts[i]))
    && (forall i, j :: 0 <= i < j < |parts| && parts[j] == ".." ==> parts[i] == "..")
  }

  lemma {:induction false} CleanIsCanonical(done: seq<string>, parts: seq<string>)
    requires Canonical(done) && forall i :: 0 <= i < |parts| ==> '/' !in parts[i]
    ensures Canonical(CleanOnto(done, parts))
    decreases parts
  {
    if parts != [] {
      if parts[0] == "" || parts[0] == "." {
        CleanIsCanonical(done, parts[1..]);
      } else if parts[0] == ".." && done != [] && done[|done| - 1] != ".." {
        CleanIsCanonical(done[..|done| - 1], parts[1..]);
      } else {
        CleanIsCanonical(done + [parts[0]], parts[1..]);
      }
    }
  }

  lemma {:induction false} CleanKeepsCanonical(done: seq<string>, parts: seq<string>)
    requires Canonical(done + parts)
    ensures CleanOnto(done, parts) == done + parts
    decreases parts
  {
    if parts != [] {
      var whole, more := done + parts, done + [parts[0]];
      assert more + parts[1..] == whole && whole[|done|] == parts[0];
      assert done != [] ==> whole[|done| - 1] == done[|done| - 1];
      CleanKeepsCanonical(more, parts[1..]);
    }
  }

  lemma CleanSkips(done: seq<string>, part: string)
    ensures CleanOnto(done, [""]) == done && CleanOnto(done, ["."]) == done
    ensures Plain(part) ==> CleanOnto(done, [part, ".."]) == done
  {
    if Plain(part) {
      assert [part, ".."][1..] == [".."] && (done + [part])[..|done|] == done;
      assert CleanOnto(done, [part, ".."]) == CleanOnto(done + [part], [".."]);
      assert CleanOnto(done + [part], [".."]) == CleanOnto(done, []);
    }
  }

  lemma CleanLeavesOut(a: seq<string>, skip: seq<string>, b: seq<string>)
    requires forall done :: CleanOnto(done, skip) == done
    ensures CleanOnto([], a + skip + b) == CleanOnto([], a + b)
  {
    CleanInTurn([], a, b);
    CleanInTurn([], a + skip, b);
    CleanInTurn([], a, skip);
  }

  /** `Clean` as its documentation describes it: empty parts and "." make no difference, nor does a part with a ".."
      behind it; what remains when nothing of that is left is kept. */
  lemma CleanRules(a: seq<string>, b: seq<string>, part: string)
    ensures CleanOnto([], a + [""] + b) == CleanOnto([], a + b)
    ensures CleanOnto([], a + ["."] + b) == CleanOnto([], a + b)
    ensures Plain(part) ==> CleanOnto([], a + [part, ".."] + b) == CleanOnto([], a + b)
    ensures Canonical(a) ==> CleanOnto([], a) == a
  {
    forall done ensures CleanOnto(done, [""]) == done && CleanOnto(done, ["."]) == done
                ensures Plain(part) ==> CleanOnto(done, [part, ".."]) == done {
      CleanSkips(done, part);
    }
    CleanLeavesOut(a, [""], b);
    CleanLeavesOut(a, ["."], b);
    if Plain(part) {
      CleanLeavesOut(a, [part, ".."], b);
    }
    if Canonical(a) {
      assert [] + a == a;
      CleanKeepsCanonical([], a);
    }
  }

  /** The parts that a cleaned path may have. */
  predicate Clear(parts: seq<string>) {
    forall i :: 0 <= i < |parts| ==> '/' !in parts[i] && parts[i] != "" && parts[i] != "."
  }

  lemma {:induction false} CleanIsClear(done: seq<string>, parts: seq<string>)
    requires Clear(done) && forall i :: 0 <= i < |parts| ==> '/' !in parts[i]
    ensures Clear(CleanOnto(done, parts))
    decreases parts
  {
    if parts != [] {
      if parts[0] == "" || parts[0] == "." {
        CleanIsClear(done, parts[1..]);
      } else if parts[0] == ".." && done != [] && done[|done| - 1] != ".." {
        CleanIsClear(done[..|done| - 1], parts[1..]);
      } else {
        CleanIsClear(done + [parts[0]], parts[1..]);
      }
    }
  }

  /** And nothing of it is ever left in a cleaned path, which is "." if nothing remains. */
  lemma CleanLeavesNothing(s: string)
    ensures var parts := CleanOnto([], Split(s));
            Canonical(parts) && (if parts == [] then Clean(s) == "." else Split(Clean(s)) == parts)
  {
    PartsHaveNoSlash(s);
    CleanIsCanonical([], Split(s));
    if CleanOnto([], Split(s)) != [] {
      SplitJoin(CleanOnto([], Split(s)));
    }
  }

  /** A cleaned path still tells which parts were left. */
  lemma CleanTellsParts(s: string, t: string)
    ensures Clean(s) == Clean(t) <==> CleanOnto([], Split(s)) == CleanOnto([], Split(t))
  {
    var a, b := CleanOnto([], Split(s)), CleanOnto([], Split(t));
    PartsHaveNoSlash(s);
    PartsHaveNoSlash(t);
    CleanIsClear([], Split(s));
    CleanIsClear([], Split(t));
    if a != [] {
      SplitJoin(a);
    }
    if b != [] {
      SplitJoin(b);
    }
    SplitPlain(".");
  }

  /** Only slashes are replaced, each where it is. */
  lemma {:induction false} PlussedIs(path: string)
    ensures |Plussed(path)| == |path|
    ensures forall i :: 0 <= i < |path| ==> Plussed(path)[i] == if path[i] == '/' then '+' else path[i]
  {
    if path != "" {
      PlussedIs(path[1..]);
    }
  }

  lemma {:induction false} PlussedHasNoSlash(path: string)
    ensures '/' !in Plussed(path) && |Plussed(path)| == |path|
    ensures Plussed(path) == "." <==> path == "."
    ensures Plussed(path) == ".." <==> path == ".."
  {
    if path != "" {
      PlussedHasNoSlash(path[1..]);
    }
  }

  lemma {:induction false} PlussedInjective(p: string, q: string)
    requires '+' !in p && '+' !in q
    ensures Plussed(p) == Plussed(q) <==> p == q
  {
    if p != "" && q != "" {
      PlussedInjective(p[1..], q[1..]);
      if Plussed(p) == Plussed(q) {
        assert Plussed(p)[0] == Plussed(q)[0] && Plussed(p)[1..] == Plussed(q)[1..];
        assert p[0] in p && q[0] in q;
        assert p == [p[0]] + p[1..] && q == [q[0]] + q[1..];
      }
    }
  }

  // ---------------------------------------------------------------------------------------------
  // Which URLs share a document
  // ---------------------------------------------------------------------------------------------

  /** What is left of the collection and the host. A host is not checked before: it may have slashes and dots. */
  function HostParts(host: string): seq<string> {
    CleanOnto([COLLECTION], Split(host))
  }

  /** What the path adds to that. */
  function PathParts(path: string): seq<string> {
    if path == "" || path == ".." then []
    else if path == "." then ["id"]
    else ["id", Plussed(path)]
  }

  lemma SplitUnderId(front: string, q: string)
    requires '/' !in q
    ensures Split(front + ("/id/" + q)) == Split(front) + ["id", q]
  {
    assert front + ("/id/" + q) == front + "/" + ("id" + "/" + q);
    SplitAtSlashes(front, "id" + "/" + q);
    SplitAtSlashes("id", q);
    SplitPlain("id");
    SplitPlain(q);
  }

  lemma SplitRawPath(u: Url)
    ensures Split(RawPath(u)) == [COLLECTION] + Split(u.host) + (if u.path != "" then ["id", Plussed(u.path)] else [])
  {
    SplitPlain(COLLECTION);
    if u.path != "" {
      PlussedHasNoSlash(u.path);
      SplitAtSlashes(COLLECTION, u.host + ("/id/" + Plussed(u.path)));
      SplitUnderId(u.host, Plussed(u.path));
    } else {
      assert u.host + "" == u.host;
      SplitAtSlashes(COLLECTION, u.host);
    }
  }

  lemma CleanPath(front: seq<string>, path: string)
    requires path != ""
    ensures CleanOnto(front, ["id", Plussed(path)]) == front + PathParts(path)
  {
    PlussedHasNoSlash(path);
    var q := Plussed(path);
    assert ["id", q][1..] == [q] && [q][1..] == [];
    assert CleanOnto(front, ["id", q]) == CleanOnto(front + ["id"], [q]);
    if path == ".." {
      assert CleanOnto(front + ["id"], [q]) == CleanOnto((front + ["id"])[..|front|], []);
    } else if path == "." {
      assert CleanOnto(front + ["id"], [q]) == CleanOnto(front + ["id"], []);
    } else {
      assert CleanOnto(front + ["id"], [q]) == CleanOnto(front + ["id"] + [q], []);
      assert front + ["id"] + [q] == front + ["id", q];
    }
  }

  /** What is left of an URL's document path. */
  lemma CleanedParts(u: Url)
    ensures CleanOnto([], Split(RawPath(u))) == HostParts(u.host) + PathParts(u.path)
  {
    var tail := if u.path != "" then ["id", Plussed(u.path)] else [];
    SplitRawPath(u);
    CleanInTurn([], [COLLECTION] + Split(u.host), tail);
    CleanInTurn([], [COLLECTION], Split(u.host));
    CleanPlain([], [COLLECTION]);
    assert [] + [COLLECTION] == [COLLECTION];
    if u.path != "" {
      CleanPath(HostParts(u.host), u.path);
    } else {
      assert HostParts(u.host) + [] == HostParts(u.host);
    }
  }

  /** Any two URLs share a document exactly when the same parts are left of them, host and path taken together. */
  lemma SameDocumentIff(u: Url, v: Url)
    ensures UrlToPath(u) == UrlToPath(v)
       <==> HostParts(u.host) + PathParts(u.path) == HostParts(v.host) + PathParts(v.path)
  {
    CleanedParts(u);
    CleanedParts(v);
    CleanTellsParts(RawPath(u), RawPath(v));
  }

  lemma PlainHostParts(host: string)
    requires Plain(host)
    ensures HostParts(host) == [COLLECTION, host]
  {
    SplitPlain(host);
    CleanPlain([COLLECTION], [host]);
  }

  /** On plain hosts neither can pass for the other: the hosts must be the same, and so must the parts of the paths. */
  lemma PlainSameDocumentIff(u: Url, v: Url)
    requires Plain(u.host) && Plain(v.host)
    ensures UrlToPath(u) == UrlToPath(v) <==> u.host == v.host && PathParts(u.path) == PathParts(v.path)
  {
    SameDocumentIff(u, v);
    PlainHostParts(u.host);
    PlainHostParts(v.host);
    var p, q := [COLLECTION, u.host] + PathParts(u.path), [COLLECTION, v.host] + PathParts(v.path);
    assert p[1] == u.host && q[1] == v.host && p[2..] == PathParts(u.path) && q[2..] == PathParts(v.path);
  }

  /** URLs that document paths are made for: the host is one plain part, and the path is not "." or "..". */
  predicate Addressable(u: Url) {
    Plain(u.host) && u.path != "." && u.path != ".."
  }

  lemma JoinFour(a: string, b: string, c: string, d: string)
    ensures Join([a, b] + [c, d]) == a + "/" + (b + ("/" + (c + "/" + d)))
  {
    var parts := [a, b] + [c, d];
    assert parts[1..] == [b, c, d] && [b, c, d][1..] == [c, d] && [c, d][1..] == [d];
    assert Join([c, d]) == c + "/" + d;
    assert b + "/" + (c + "/" + d) == b + ("/" + (c + "/" + d));
  }

  /** Cleaning does nothing to the document path of an addressable URL. */
  lemma PathOfAddressable(u: Url)
    requires Addressable(u)
    ensures UrlToPath(u) == "links/" + (u.host + (if u.path != "" then "/id/" + Plussed(u.path) else ""))
    ensures HasReference(UrlToPath(u))
  {
    PlussedHasNoSlash(u.path);
    CleanedParts(u);
    PlainHostParts(u.host);
    var parts := HostParts(u.host) + PathParts(u.path);
    SplitJoin(parts);
    if u.path != "" {
      JoinFour(COLLECTION, u.host, "id", Plussed(u.path));
      assert "/" + ("id" + "/" + Plussed(u.path)) == "/id/" + Plussed(u.path);
    } else {
      assert parts[1..] == [u.host];
    }
  }

  /** On plain hosts, and paths without a plus, two URLs have one document only if they are the same, except that ".."
      is as good as no path. */
  lemma DocumentsAreDistinct(u: Url, v: Url)
    requires Plain(u.host) && Plain(v.host)
    requires '+' !in u.path && '+' !in v.path
    ensures UrlToPath(u) == UrlToPath(v)
       <==> u.host == v.host && (u.path == v.path || (u.path in {"", ".."} && v.path in {"", ".."}))
  {
    PlainSameDocumentIff(u, v);
    PlussedInjective(u.path, v.path);
    assert |PathParts(".")| == 1;
    assert u.path !in {"", ".", ".."} ==> PathParts(u.path)[1] == Plussed(u.path);
    assert v.path !in {"", ".", ".."} ==> PathParts(v.path)[1] == Plussed(v.path);
  }

  /** Why ".." is not addressable: on every host it leads to the document of the host itself. */
  lemma DotDotIsTheHost(host: string)
    ensures UrlToPath(Served(host, "..")) == UrlToPath(Served(host, ""))
  {
    SameDocumentIff(Served(host, ".."), Served(host, ""));
  }

  /** Why a host with slashes is not addressable: whatever path there is under a host, a second host with no path at all
      leads to its document. */
  lemma HostAliases(host: string, path: string)
    requires path != ""
    ensures UrlToPath(Served(host + "/id/" + Plussed(path), "")) == UrlToPath(Served(host, path))
  {
    assert RawPath(Served(host + "/id/" + Plussed(path), "")) == RawPath(Served(host, path)) by {
      assert host + "/id/" + Plussed(path) + "" == host + ("/id/" + Plussed(path));
    }
  }
}
