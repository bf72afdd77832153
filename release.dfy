/**
 * The release description: the scalar-or-list codec `OneOrMore`, the
 * release-side authors and commits, changes, and the release itself with
 * its author and commit projections (src/release.rs).
 */
module ReleaseModel {
  import opened Wrappers

  // ---------------------------------------------------------------------
  // The structured-data values the codec reads and writes
  // ---------------------------------------------------------------------

  /** A data-model value as the codec sees it: a string, an array, or anything else. */
  datatype Value = Str(s: string) | Arr(elems: seq<Value>) | Other

  /** What deserializing a `OneOrMore` can fail with. */
  datatype DecodeError =
    | Custom(msg: string)   // an error raised by the visitor itself
    | InvalidType           // the value, or an array element, is not a string
    | Panic(msg: string)    // the visitor's `assert!` on an empty array

  const ParseFailed := "failed to parse from string"
  const AtLeastOne := "expected at least one string"

  // ---------------------------------------------------------------------
  // OneOrMore<T>
  // ---------------------------------------------------------------------

  /** One or more items; the codec below never produces an empty one. */
  datatype OneOrMore<T> = OneOrMore(items: seq<T>)

  /** Serialization: one item as a bare scalar, any other number as an array. */
  function Encode<T>(xs: OneOrMore<T>, show: T -> string): (v: Value)
    ensures |xs.items| == 1 ==> v == Str(show(xs.items[0]))
    ensures |xs.items| != 1 ==> v.Arr? && |v.elems| == |xs.items|
    ensures |xs.items| != 1 ==> forall i :: 0 <= i < |xs.items| ==> v.elems[i] == Str(show(xs.items[i]))
  {
    if |xs.items| == 1 then Str(show(xs.items[0]))
    else Arr(seq(|xs.items|, i requires 0 <= i < |xs.items| => Str(show(xs.items[i]))))
  }

  /** `visit_str`: convert the string, wrap it as a one-item list. */
  function VisitStr<T, E>(s: string, parse: string -> Result<T, E>): (r: Result<seq<T>, DecodeError>)
    ensures r.Ok? <==> parse(s).Ok?
    ensures r.Ok? ==> r.value == [parse(s).value]
    ensures r.Err? ==> r.error == Custom(ParseFailed)
  {
    match parse(s)
    case Ok(item) => Ok([item])
    case Err(_) => Err(Custom(ParseFailed))
  }

  /** Prepend already converted items to the outcome of converting the rest. */
  function Prefixed<T>(done: seq<T>, rest: Result<seq<T>, DecodeError>): Result<seq<T>, DecodeError>
  {
    match rest
    case Ok(more) => Ok(done + more)
    case Err(e) => Err(e)
  }

  /** Every element before position `k` is a string that converts. */
  ghost predicate ConvertsBefore<T, E>(elems: seq<Value>, parse: string -> Result<T, E>, k: int)
  {
    forall i :: 0 <= i < k && i < |elems| ==> elems[i].Str? && parse(elems[i].s).Ok?
  }

  /**
   * Element-by-element conversion of an array, stopping at the first
   * failure: the first bad element decides the error, a non-string an
   * invalid type and a string that does not convert the custom error.
   */
  function ParseEach<T, E>(elems: seq<Value>, parse: string -> Result<T, E>): (r: Result<seq<T>, DecodeError>)
    ensures r.Ok? <==> forall i :: 0 <= i < |elems| ==> elems[i].Str? && parse(elems[i].s).Ok?
    ensures r.Ok? ==> |r.value| == |elems|
    ensures r.Ok? ==> forall i :: 0 <= i < |elems| ==> parse(elems[i].s) == Ok(r.value[i])
    ensures forall k :: 0 <= k < |elems| && ConvertsBefore(elems, parse, k) && !elems[k].Str? ==> r == Err(InvalidType)
    ensures forall k :: 0 <= k < |elems| && ConvertsBefore(elems, parse, k) && elems[k].Str? && parse(elems[k].s).Err? ==> r == Err(Custom(ParseFailed))
  {
    if elems == [] then Ok([])
    else
      match elems[0]
      case Str(s) =>
        (match parse(s)
         case Err(_) => Err(Custom(ParseFailed))
         case Ok(item) => Prefixed([item], ParseEach(elems[1..], parse)))
      case _ => Err(InvalidType)
  }

  /** `visit_seq` as a function of the array's elements. */
  function DecodeArray<T, E>(elems: seq<Value>, parse: string -> Result<T, E>): Result<seq<T>, DecodeError>
  {
    match ParseEach(elems, parse)
    case Err(e) => Err(e)
    case Ok(v) => if |v| >= 1 then Ok(v) else Err(Panic(AtLeastOne))
  }

  lemma PrefixedAssoc<T>(a: seq<T>, b: seq<T>, r: Result<seq<T>, DecodeError>)
    ensures Prefixed(a, Prefixed(b, r)) == Prefixed(a + b, r)
  {
    if r.Ok? {
      assert a + (b + r.value) == (a + b) + r.value;
    }
  }

  /**
   * `visit_seq`: pull the elements one at a time, convert each with
   * `parse` and push it, then insist on at least one item.
   */
  method VisitSeq<T, E>(elems: seq<Value>, parse: string -> Result<T, E>) returns (r: Result<seq<T>, DecodeError>)
    ensures r == DecodeArray(elems, parse)
  {
    var v: seq<T> := [];
    var i := 0;
    assert elems[0..] == elems;
    var whole := ParseEach(elems, parse);
    assert whole.Ok? ==> [] + whole.value == whole.value;
    while i < |elems|
      invariant 0 <= i <= |elems|
      invariant ParseEach(elems, parse) == Prefixed(v, ParseEach(elems[i..], parse))
    {
      assert elems[i..][0] == elems[i] && elems[i..][1..] == elems[i + 1..];
      if !elems[i].Str? {
        return Err(InvalidType);
      }
      match parse(elems[i].s) {
        case Err(_) =>
          return Err(Custom(ParseFailed));
        case Ok(item) =>
          PrefixedAssoc(v, [item], ParseEach(elems[i + 1..], parse));
          v := v + [item];
      }
      i := i + 1;
    }
    assert elems[i..] == [];
    assert v + [] == v;
    if |v| < 1 {
      return Err(Panic(AtLeastOne));
    }
    return Ok(v);
  }

  /** Deserialization of a `OneOrMore`: dispatch on the kind of value. */
  function Decode<T, E>(v: Value, parse: string -> Result<T, E>): (r: Result<OneOrMore<T>, DecodeError>)
    ensures r.Ok? ==> |r.value.items| >= 1
    ensures v.Other? ==> r == Err(InvalidType)
    ensures v.Str? ==> (r.Ok? <==> parse(v.s).Ok?)
    ensures v.Str? && r.Ok? ==> r.value.items == [parse(v.s).value]
    ensures v.Str? && r.Err? ==> r.error == Custom(ParseFailed)
    ensures v.Arr? ==> (r.Ok? <==> |v.elems| >= 1 && forall i :: 0 <= i < |v.elems| ==> v.elems[i].Str? && parse(v.elems[i].s).Ok?)
    ensures v.Arr? && r.Ok? ==> |r.value.items| == |v.elems| && forall i :: 0 <= i < |v.elems| ==> parse(v.elems[i].s) == Ok(r.value.items[i])
    ensures v.Arr? && v.elems == [] ==> r == Err(Panic(AtLeastOne))
    ensures v.Arr? ==> forall k :: 0 <= k < |v.elems| && ConvertsBefore(v.elems, parse, k) && !v.elems[k].Str? ==> r == Err(InvalidType)
    ensures v.Arr? ==> forall k :: 0 <= k < |v.elems| && ConvertsBefore(v.elems, parse, k) && v.elems[k].Str? && parse(v.elems[k].s).Err? ==> r == Err(Custom(ParseFailed))
  {
    match v
    case Str(s) => (match VisitStr(s, parse) case Ok(items) => Ok(OneOrMore(items)) case Err(e) => Err(e))
    case Arr(elems) => (match DecodeArray(elems, parse) case Ok(items) => Ok(OneOrMore(items)) case Err(e) => Err(e))
    case Other => Err(InvalidType)
  }

  /** An item survives the trip through its string form unchanged. */
  ghost predicate Faithful<T, E>(x: T, show: T -> string, parse: string -> Result<T, E>)
  {
    parse(show(x)) == Ok(x)
  }

  /**
   * The round trip holds exactly for non-empty lists of items that survive
   * their own string round trip.
   */
  lemma RoundTrip<T, E>(xs: OneOrMore<T>, show: T -> string, parse: string -> Result<T, E>)
    ensures Decode(Encode(xs, show), parse) == Ok(xs)
        <==> |xs.items| >= 1 && forall i :: 0 <= i < |xs.items| ==> Faithful(xs.items[i], show, parse)
  {
    var v := Encode(xs, show);
    if |xs.items| == 1 {
      assert Decode(v, parse) == Ok(xs) ==> parse(show(xs.items[0])) == Ok(xs.items[0]);
      if Faithful(xs.items[0], show, parse) {
        assert xs.items == [xs.items[0]];
      }
    } else if |xs.items| >= 2 {
      var r := Decode(v, parse);
      if forall i :: 0 <= i < |xs.items| ==> Faithful(xs.items[i], show, parse) {
        assert r.Ok?;
        assert r.value.items == xs.items;
      }
      if r == Ok(xs) {
        forall i | 0 <= i < |xs.items| ensures Faithful(xs.items[i], show, parse) {
          assert v.elems[i] == Str(show(xs.items[i]));
        }
      }
    }
  }

  // ---------------------------------------------------------------------
  // Authors and commits as the release names them
  // ---------------------------------------------------------------------

  /** A GitHub user, by name. Equality is by name. */
  datatype Author = Author(name: string)

  /** The conversion error type of an author: conversion never fails. */
  datatype Infallible = Infallible

  /** `Author::try_from`: every string names an author. */
  function AuthorTryFrom(s: string): (r: Result<Author, Infallible>)
    ensures r.Ok? && r.value.name == s
  {
    Ok(Author(s))
  }

  /** An author serializes as its bare name, which converts back to that author. */
  function AuthorShow(a: Author): (r: string)
    ensures AuthorTryFrom(r) == Ok(a)
  {
    a.name
  }

  /** `Display for Author`: the mention link `[@name]`. */
  function AuthorDisplay(a: Author): (r: string)
    ensures |r| == |a.name| + 3
    ensures r[..2] == "[@" && r[2..|r| - 1] == a.name && r[|r| - 1] == ']'
  {
    "[@" + a.name + "]"
  }

  /** Distinct authors display distinctly, and the name is recoverable. */
  lemma AuthorDisplayInjective(a: Author, b: Author)
    ensures |AuthorDisplay(a)| == |a.name| + 3
    ensures AuthorDisplay(a)[2..|a.name| + 2] == a.name
    ensures AuthorDisplay(a) == AuthorDisplay(b) ==> a == b
  {
    var da, db := AuthorDisplay(a), AuthorDisplay(b);
    assert da[2..|a.name| + 2] == a.name;
    if da == db {
      assert |a.name| == |b.name|;
      assert db[2..|b.name| + 2] == b.name;
    }
  }

  /** Every author list of at least one author survives the codec. */
  lemma AuthorRoundTrip(xs: OneOrMore<Author>)
    ensures Decode(Encode(xs, AuthorShow), AuthorTryFrom) == Ok(xs) <==> |xs.items| >= 1
  {
    RoundTrip(xs, AuthorShow, AuthorTryFrom);
  }

  /** A commit hash: never shorter than seven characters. */
  type CommitHash = s: string | |s| >= 7 witness "0000000"

  /** A git commit, by its hash. */
  datatype Commit = Commit(hash: CommitHash)

  /** The error of converting a too-short string, carrying that string. */
  datatype CommitConversionError = CommitConversionError(offending: string)

  const ShortHashMessage := "commit hashes must not be shorter than 7 characters"

  /** `Commit::new`: the hash must have at least seven characters. */
  function CommitNew(hash: string): (c: Commit)
    requires |hash| >= 7
    ensures c.hash == hash
  {
    Commit(hash)
  }

  /** `Commit::try_from`: reject, carrying the input, exactly the strings shorter than seven. */
  function CommitTryFrom(s: string): (r: Result<Commit, CommitConversionError>)
    ensures r.Err? <==> |s| < 7
    ensures r.Err? ==> r.error == CommitConversionError(s)
    ensures r.Ok? ==> r.value.hash == s
  {
    if |s| < 7 then Err(CommitConversionError(s)) else Ok(CommitNew(s))
  }

  /** A commit serializes as its bare hash, which converts back to that commit. */
  function CommitShow(c: Commit): (r: string)
    ensures |r| >= 7 && CommitTryFrom(r) == Ok(c)
  {
    c.hash
  }

  /** `Display for Commit`: `[c:` and the first seven characters of the hash, then `]`. */
  function CommitDisplay(c: Commit): (r: string)
    ensures |r| == 11
    ensures r[..3] == "[c:" && r[3..10] == c.hash[..7] && r[10] == ']'
  {
    "[c:" + c.hash[..7] + "]"
  }

  /** A commit's display is always eleven characters, and two displays agree iff the short hashes do. */
  lemma CommitDisplayShort(a: Commit, b: Commit)
    ensures |CommitDisplay(a)| == 11
    ensures CommitDisplay(a)[3..10] == a.hash[..7]
    ensures CommitDisplay(a) == CommitDisplay(b) <==> a.hash[..7] == b.hash[..7]
  {
    var da, db := CommitDisplay(a), CommitDisplay(b);
    assert da[3..10] == a.hash[..7];
    assert db[3..10] == b.hash[..7];
  }

  /** Every non-empty commit list survives the codec: a hash is never rejected on the way back. */
  lemma CommitRoundTrip(xs: OneOrMore<Commit>)
    ensures Decode(Encode(xs, CommitShow), CommitTryFrom) == Ok(xs) <==> |xs.items| >= 1
  {
    RoundTrip(xs, CommitShow, CommitTryFrom);
  }

  // ---------------------------------------------------------------------
  // Changes and releases
  // ---------------------------------------------------------------------

  /** One change: its category, its name, who made it and in which commits. */
  datatype Change = Change(category: string, name: string, authors: OneOrMore<Author>, commits: OneOrMore<Commit>)

  /** `Change::new`: one author and one commit; the hash must have seven characters. */
  function ChangeNew(category: string, name: string, author: string, commit: string): (c: Change)
    requires |commit| >= 7
    ensures c.category == category && c.name == name
    ensures c.authors.items == [Author(author)]
    ensures |c.commits.items| == 1 && c.commits.items[0].hash == commit
  {
    Change(category, name, OneOrMore([Author(author)]), OneOrMore([CommitNew(commit)]))
  }

  /** A release: the repository's URL and the four lists of changes. */
  datatype Release = Release(repo_url: string, added: seq<Change>, changed: seq<Change>, fixed: seq<Change>, removed: seq<Change>)

  /** `Release::iter`: the changes in the order added, changed, fixed, removed. */
  function AllChanges(rel: Release): (r: seq<Change>)
    ensures |r| == |rel.added| + |rel.changed| + |rel.fixed| + |rel.removed|
    ensures forall c :: c in r <==> c in rel.added || c in rel.changed || c in rel.fixed || c in rel.removed
    ensures r[..|rel.added|] == rel.added && r[|r| - |rel.removed|..] == rel.removed
    ensures r[|rel.added|..|rel.added| + |rel.changed|] == rel.changed
    ensures r[|rel.added| + |rel.changed|..|r| - |rel.removed|] == rel.fixed
  {
    rel.added + rel.changed + rel.fixed + rel.removed
  }

  /** The authors of the changes, change by change, duplicates kept. */
  function AuthorsOf(cs: seq<Change>): seq<Author>
  {
    if cs == [] then [] else AuthorsOf(cs[..|cs| - 1]) + cs[|cs| - 1].authors.items
  }

  /** The commits of the changes, change by change, duplicates kept. */
  function CommitsOf(cs: seq<Change>): seq<Commit>
  {
    if cs == [] then [] else CommitsOf(cs[..|cs| - 1]) + cs[|cs| - 1].commits.items
  }

  /** Each element once: the multiplicity of every member is one. */
  ghost predicate NoDup<T>(s: seq<T>)
  {
    forall x | x in multiset(s) :: multiset(s)[x] == 1
  }

  /** Duplicates dropped, first occurrences kept. */
  function Dedup<T(==,!new)>(s: seq<T>): (r: seq<T>)
    ensures NoDup(r)
    ensures forall x :: x in r <==> x in s
  {
    if s == [] then []
    else
      var init := Dedup(s[..|s| - 1]);
      var x := s[|s| - 1];
      assert forall y :: y in s <==> y in s[..|s| - 1] || y == x by {
        assert s == s[..|s| - 1] + [x];
      }
      if x in init then init
      else
        assert multiset(init + [x]) == multiset(init) + multiset{x};
        init + [x]
  }

  /**
   * `Release::get_authors`: every author of every change, each once. The
   * source collects them through a hash set, so no order is promised.
   */
  function GetAuthors(rel: Release): (r: seq<Author>)
    ensures NoDup(r)
    ensures forall a :: a in r <==> a in AuthorsOf(AllChanges(rel))
  {
    Dedup(AuthorsOf(AllChanges(rel)))
  }

  /**
   * `Release::get_commits`: every commit of every change, duplicates kept,
   * the four lists' commits concatenated in order added, changed, fixed, removed.
   */
  function GetCommits(rel: Release): (r: seq<Commit>)
    ensures r == CommitsOf(rel.added) + CommitsOf(rel.changed) + CommitsOf(rel.fixed) + CommitsOf(rel.removed)
  {
    CommitsOfAppend(rel.added + rel.changed + rel.fixed, rel.removed);
    CommitsOfAppend(rel.added + rel.changed, rel.fixed);
    CommitsOfAppend(rel.added, rel.changed);
    CommitsOf(AllChanges(rel))
  }

  lemma {:induction false} AuthorsOfAppend(a: seq<Change>, b: seq<Change>)
    ensures AuthorsOf(a + b) == AuthorsOf(a) + AuthorsOf(b)
  {
    if b == [] {
      assert a + b == a;
    } else {
      assert (a + b)[..|a + b| - 1] == a + b[..|b| - 1];
      AuthorsOfAppend(a, b[..|b| - 1]);
    }
  }

  lemma {:induction false} CommitsOfAppend(a: seq<Change>, b: seq<Change>)
    ensures CommitsOf(a + b) == CommitsOf(a) + CommitsOf(b)
  {
    if b == [] {
      assert a + b == a;
    } else {
      assert (a + b)[..|a + b| - 1] == a + b[..|b| - 1];
      CommitsOfAppend(a, b[..|b| - 1]);
    }
  }

  /** An author is collected iff some change lists it. */
  lemma {:induction false} AuthorsOfMember(cs: seq<Change>, a: Author)
    ensures a in AuthorsOf(cs) <==> exists i :: 0 <= i < |cs| && a in cs[i].authors.items
  {
    if cs != [] {
      var init := cs[..|cs| - 1];
      AuthorsOfMember(init, a);
      if a in AuthorsOf(init) {
        var i :| 0 <= i < |init| && a in init[i].authors.items;
        assert cs[i] == init[i];
      }
      if exists i :: 0 <= i < |cs| && a in cs[i].authors.items {
        var i :| 0 <= i < |cs| && a in cs[i].authors.items;
        if i < |init| {
          assert init[i] == cs[i];
        }
      }
    }
  }

  /** A commit is collected iff some change lists it. */
  lemma {:induction false} CommitsOfMember(cs: seq<Change>, c: Commit)
    ensures c in CommitsOf(cs) <==> exists i :: 0 <= i < |cs| && c in cs[i].commits.items
  {
    if cs != [] {
      var init := cs[..|cs| - 1];
      CommitsOfMember(init, c);
      if c in CommitsOf(init) {
        var i :| 0 <= i < |init| && c in init[i].commits.items;
        assert cs[i] == init[i];
      }
      if exists i :: 0 <= i < |cs| && c in cs[i].commits.items {
        var i :| 0 <= i < |cs| && c in cs[i].commits.items;
        if i < |init| {
          assert init[i] == cs[i];
        }
      }
    }
  }

  /** The release's authors are exactly those named by a change in any of the four lists. */
  lemma GetAuthorsExactly(rel: Release, a: Author)
    ensures a in GetAuthors(rel) <==>
      exists c :: (c in rel.added || c in rel.changed || c in rel.fixed || c in rel.removed) && a in c.authors.items
  {
    var all := AllChanges(rel);
    AuthorsOfMember(all, a);
    if a in GetAuthors(rel) {
      var i :| 0 <= i < |all| && a in all[i].authors.items;
      assert all[i] in rel.added || all[i] in rel.changed || all[i] in rel.fixed || all[i] in rel.removed;
    }
    if exists c :: (c in rel.added || c in rel.changed || c in rel.fixed || c in rel.removed) && a in c.authors.items {
      var c :| (c in rel.added || c in rel.changed || c in rel.fixed || c in rel.removed) && a in c.authors.items;
      assert c in all;
      var i :| 0 <= i < |all| && all[i] == c;
    }
  }

  /** Nothing is deduplicated: a change's commits appear in full after those of the changes before it. */
  lemma CommitsOfSnoc(cs: seq<Change>, c: Change)
    ensures CommitsOf(cs + [c]) == CommitsOf(cs) + c.commits.items
    ensures |CommitsOf(cs + [c])| == |CommitsOf(cs)| + |c.commits.items|
  {
    assert (cs + [c])[..|cs|] == cs;
  }
}
