/** Paths as src/fs/vfs.rs takes them apart. */
module Paths {

  /** `split('/')` */
  function Split(s: string): (r: seq<string>)
    ensures r != []
  {
    if s == "" then [""]
    else if s[0] == '/' then [""] + Split(s[1..])
    else var r := Split(s[1..]); [[s[0]] + r[0]] + r[1..]
  }

  /** `filter(|s| !s.is_empty())` */
  function NonEmpty(parts: seq<string>): seq<string> {
    if parts == [] then [] else Kept(parts[0]) + NonEmpty(parts[1..])
  }

  function Kept(part: string): seq<string> { if part == "" then [] else [part] }

  function Components(s: string): seq<string> { NonEmpty(Split(s)) }

  function First(parts: seq<string>): string
    requires parts != []
  {
    parts[0]
  }

  function Last(parts: seq<string>): string
    requires parts != []
  {
    parts[|parts| - 1]
  }

  /** Lists of parts put together when the text between them is: the last part of one and the first of the other
      join. */
  function Joined(a: seq<string>, b: seq<string>): seq<string>
    requires a != [] && b != []
  {
    a[..|a| - 1] + [Last(a) + First(b)] + b[1..]
  }

  lemma Associates<T>(a: seq<T>, b: seq<T>, c: seq<T>)
    ensures a + (b + c) == a + b + c
  {
  }

  lemma {:induction false} NonEmptyAppend(a: seq<string>, b: seq<string>)
    ensures NonEmpty(a + b) == NonEmpty(a) + NonEmpty(b)
  {
    if a == [] {
      assert a + b == b;
    } else {
      NonEmptyAppend(a[1..], b);
      assert (a + b)[1..] == a[1..] + b;
      Associates(Kept(a[0]), NonEmpty(a[1..]), NonEmpty(b));
    }
  }

  lemma JoinedCons(p: string, a: seq<string>, b: seq<string>)
    requires a != [] && b != []
    ensures Joined([p] + a, b) == [p] + Joined(a, b)
  {
  }

  lemma JoinedHead(c: char, a: seq<string>, b: seq<string>)
    requires a != [] && b != []
    ensures Joined([[c] + a[0]] + a[1..], b) == [[c] + Joined(a, b)[0]] + Joined(a, b)[1..]
  {
    if |a| == 1 { assert [c] + a[0] + b[0] == [c] + (a[0] + b[0]); }
  }

  /** The parts of two texts put together. */
  lemma {:induction false} SplitConcat(a: string, b: string)
    ensures Split(a + b) == Joined(Split(a), Split(b))
  {
    if a == "" {
      assert a + b == b && "" + Split(b)[0] == Split(b)[0];
      assert Joined([""], Split(b)) == Split(b);
    } else {
      SplitConcat(a[1..], b);
      assert (a + b)[1..] == a[1..] + b && (a + b)[0] == a[0];
      if a[0] == '/' {
        JoinedCons("", Split(a[1..]), Split(b));
      } else {
        JoinedHead(a[0], Split(a[1..]), Split(b));
      }
    }
  }

  lemma {:induction false} LastPart(a: string)
    ensures Last(Split(a)) == "" <==> a == "" || a[|a| - 1] == '/'
  {
    if a != "" { LastPart(a[1..]); }
  }

  /** A text ends or another starts at a slash, or one of them is empty. */
  predicate Boundary(a: string, b: string) { a == "" || b == "" || a[|a| - 1] == '/' || b[0] == '/' }

  lemma OnePart(p: string)
    ensures NonEmpty([p]) == Kept(p)
  {
    assert [p][1..] == [];
  }

  lemma JoinedKept(a: seq<string>, b: seq<string>)
    requires a != [] && b != []
    ensures NonEmpty(a) == NonEmpty(a[..|a| - 1]) + Kept(Last(a)) && NonEmpty(b) == Kept(First(b)) + NonEmpty(b[1..])
    ensures NonEmpty(Joined(a, b)) == NonEmpty(a[..|a| - 1]) + Kept(Last(a) + First(b)) + NonEmpty(b[1..])
  {
    var x, y, j := a[..|a| - 1], b[1..], Last(a) + First(b);
    assert a == x + [Last(a)];
    NonEmptyAppend(x, [Last(a)]);
    OnePart(Last(a));
    NonEmptyAppend(x + [j], y);
    NonEmptyAppend(x, [j]);
    OnePart(j);
  }

  lemma JoinedApart(a: seq<string>, b: seq<string>)
    requires a != [] && b != [] && (Last(a) == "" || First(b) == "")
    ensures NonEmpty(Joined(a, b)) == NonEmpty(a) + NonEmpty(b)
  {
    JoinedKept(a, b);
    var x, y := NonEmpty(a[..|a| - 1]), NonEmpty(b[1..]);
    if Last(a) == "" {
      assert Last(a) + First(b) == First(b);
      Associates(x, Kept(First(b)), y);
      assert x + Kept(Last(a)) == x;
    } else {
      assert Last(a) + First(b) == Last(a);
      assert Kept(First(b)) + y == y;
    }
  }

  lemma JoinedMerge(a: seq<string>, b: seq<string>)
    requires a != [] && b != [] && Last(a) != "" && First(b) != ""
    ensures |NonEmpty(Joined(a, b))| + 1 == |NonEmpty(a)| + |NonEmpty(b)|
  {
    JoinedKept(a, b);
  }

  /** The components of a text are those of its two halves if and only if it is cut at a slash or at one of its ends. */
  lemma ComponentsConcatIff(a: string, b: string)
    ensures Components(a + b) == Components(a) + Components(b) <==> Boundary(a, b)
  {
    SplitConcat(a, b);
    LastPart(a);
    if Last(Split(a)) == "" || First(Split(b)) == "" {
      JoinedApart(Split(a), Split(b));
    } else {
      JoinedMerge(Split(a), Split(b));
    }
  }

  /** Any number of slashes separates, and none is needed at the ends. */
  lemma ComponentsSlash(a: string, b: string)
    ensures Components(a + "/" + b) == Components(a) + Components(b)
  {
    ComponentsConcatIff(a, "/");
    ComponentsConcatIff(a + "/", b);
    assert Components("/") == [];
  }

  lemma {:induction false} SplitPlain(s: string)
    requires '/' !in s
    ensures Split(s) == [s]
  {
    if s != "" {
      SplitPlain(s[1..]);
      assert s == [s[0]] + s[1..];
    }
  }

  lemma {:induction false} PartsPlain(s: string, i: nat)
    requires i < |Split(s)|
    ensures '/' !in Split(s)[i]
    decreases s
  {
    if s != "" {
      if s[0] != '/' {
        PartsPlain(s[1..], i);
      } else if i > 0 {
        PartsPlain(s[1..], i - 1);
      }
    }
  }

  lemma {:induction false} NonEmptyMembers(parts: seq<string>)
    ensures forall p | p in NonEmpty(parts) :: p in parts && p != ""
  {
    if parts != [] { NonEmptyMembers(parts[1..]); }
  }

  lemma ComponentsAreNames(s: string)
    ensures forall p | p in Components(s) :: p != "" && '/' !in p
  {
    NonEmptyMembers(Split(s));
    forall i | 0 <= i < |Split(s)| { PartsPlain(s, i); }
  }

  /** The components joined by slashes. */
  function Rejoin(parts: seq<string>): string {
    if parts == [] then "" else "/" + parts[0] + Rejoin(parts[1..])
  }

  lemma RejoinStep(p: string, rest: string)
    requires p != "" && '/' !in p && (rest == "" || rest[0] == '/')
    ensures Components("/" + p + rest) == [p] + Components(rest)
  {
    ComponentsConcatIff("/" + p, rest);
    ComponentsConcatIff("/", p);
    assert Components("/") == [];
    SplitPlain(p);
    OnePart(p);
  }

  /** Components are what a path is made of: joined by slashes they give back the same components. */
  lemma {:induction false} ComponentsOfRejoin(parts: seq<string>)
    requires forall p | p in parts :: p != "" && '/' !in p
    ensures Components(Rejoin(parts)) == parts
  {
    if parts == [] {
      assert NonEmpty([""][1..]) == [];
    } else {
      assert parts[0] in parts && forall q | q in parts[1..] :: q in parts;
      ComponentsOfRejoin(parts[1..]);
      RejoinStep(parts[0], Rejoin(parts[1..]));
    }
  }

  /** Every path has the components of one in which single slashes separate names. */
  lemma NormalForm(s: string)
    ensures Components(Rejoin(Components(s))) == Components(s)
  {
    ComponentsAreNames(s);
    ComponentsOfRejoin(Components(s));
  }
}
