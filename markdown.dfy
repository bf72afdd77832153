/**
 * The markdown renderer of src/release.rs: `write_separated`, `write_list`
 * and `generate_msg`. The text sink is a string; each writer receives the
 * sink's text so far and returns it with its own output appended.
 */
module Markdown {
  import opened ReleaseModel
  import Text

  // ---------------------------------------------------------------------
  // The text, as functions of the release
  // ---------------------------------------------------------------------

  /** The displays of the items, in order. */
  function Shown<T>(items: seq<T>, show: T -> string): (r: seq<string>)
    ensures |r| == |items|
    ensures forall i :: 0 <= i < |items| ==> r[i] == show(items[i])
  {
    seq(|items|, i requires 0 <= i < |items| => show(items[i]))
  }

  /** The line a change renders as: `- [category] name (authors) commits`. */
  function ChangeLine(c: Change): string
  {
    "- [" + c.category + "] " + c.name + " ("
      + Text.Join(Shown(c.authors.items, AuthorDisplay), " ") + ") "
      + Text.Join(Shown(c.commits.items, CommitDisplay), " ") + "\n"
  }

  function ChangeLines(cs: seq<Change>): string
  {
    Text.Concat(cs, ChangeLine)
  }

  /** A category's block: nothing for no changes, else heading, blank line, lines, blank line. */
  function ListBlock(header: string, cs: seq<Change>): string
  {
    if cs == [] then "" else header + "\n\n" + ChangeLines(cs) + "\n"
  }

  /** Every change has a category: the renderer asserts it. */
  predicate Categorized(cs: seq<Change>)
  {
    forall i :: 0 <= i < |cs| ==> cs[i].category != ""
  }

  predicate ReleaseCategorized(rel: Release)
  {
    Categorized(rel.added) && Categorized(rel.changed) && Categorized(rel.fixed) && Categorized(rel.removed)
  }

  const ThanksHeader := "Thanks to the following for their contributions:"

  function MentionLine(a: Author): string
  {
    "- " + AuthorDisplay(a) + "\n"
  }

  function MentionLines(authors: seq<Author>): string
  {
    Text.Concat(authors, MentionLine)
  }

  function AuthorLink(a: Author): string
  {
    AuthorDisplay(a) + ": https://github.com/" + a.name + "\n"
  }

  function AuthorLinks(authors: seq<Author>): string
  {
    Text.Concat(authors, AuthorLink)
  }

  function CommitLink(url: string, c: Commit): string
  {
    CommitDisplay(c) + ": " + url + "/commit/" + c.hash + "\n"
  }

  /** The link line of a commit of the repository at `url`. */
  function CommitLinkTo(url: string): Commit -> string
  {
    c => CommitLink(url, c)
  }

  function CommitLinks(url: string, cs: seq<Commit>): string
  {
    Text.Concat(cs, CommitLinkTo(url))
  }

  /** The author order the thanks section is keyed on: names compared after lower-casing. */
  function NameKey(a: Author): string
  {
    Text.Lower(a.name)
  }

  predicate NameLe(a: Author, b: Author)
  {
    Text.LexLe(NameKey(a), NameKey(b))
  }

  /** Every element's key is at most the key of every element after it. */
  ghost predicate SortedOn<T>(s: seq<T>, key: T -> string)
  {
    forall i, j :: 0 <= i < j < |s| ==> Text.LexLe(key(s[i]), key(s[j]))
  }

  ghost predicate SortedByName(s: seq<Author>)
  {
    SortedOn(s, NameKey)
  }

  /** An order generate_msg may list the release's authors in: each once, all of them, sorted by lower-cased name. */
  ghost predicate ThanksOrder(rel: Release, authors: seq<Author>)
  {
    && NoDup(authors)
    && (forall a :: a in authors <==> a in AuthorsOf(AllChanges(rel)))
    && SortedByName(authors)
  }

  /** The whole message for a given order of the release's authors. */
  function Message(rel: Release, authors: seq<Author>): string
  {
    ThanksHeader + "\n\n"
      + MentionLines(authors) + "\n"
      + ListBlock("### Added", rel.added)
      + ListBlock("### Changed", rel.changed)
      + ListBlock("### Fixed", rel.fixed)
      + ListBlock("### Removed", rel.removed)
      + AuthorLinks(authors) + "\n"
      + CommitLinks(rel.repo_url, GetCommits(rel))
  }

  // ---------------------------------------------------------------------
  // The writers
  // ---------------------------------------------------------------------

  /** `write_separated`: the items' displays, `sep` between two neighbours and nowhere else. */
  method WriteSeparated<T>(sink: string, items: seq<T>, show: T -> string, sep: string) returns (out: string)
    ensures out == sink + Text.Join(Shown(items, show), sep)
  {
    out := sink;
    var first := true;
    var i := 0;
    while i < |items|
      invariant 0 <= i <= |items|
      invariant first <==> i == 0
      invariant out == sink + Text.Join(Shown(items[..i], show), sep)
    {
      if !first {
        out := out + sep;
      }
      out := out + show(items[i]);
      first := false;
      assert Shown(items[..i + 1], show)[..i] == Shown(items[..i], show);
      i := i + 1;
    }
    assert items[..i] == items;
  }

  /** The body of `write_list`'s loop: one change's line. */
  method WriteChange(sink: string, change: Change) returns (out: string)
    ensures out == sink + ChangeLine(change)
  {
    ghost var head := "- [" + change.category + "] " + change.name + " (";
    ghost var authors := Text.Join(Shown(change.authors.items, AuthorDisplay), " ");
    ghost var commits := Text.Join(Shown(change.commits.items, CommitDisplay), " ");
    out := sink + ("- [" + change.category + "] " + change.name + " (");
    out := WriteSeparated(out, change.authors.items, AuthorDisplay, " ");
    out := out + ") ";
    out := WriteSeparated(out, change.commits.items, CommitDisplay, " ");
    out := out + "\n";
    assert ChangeLine(change) == head + authors + ") " + commits + "\n";
    LineAssoc(sink, head, authors, commits);
  }

  lemma LineAssoc(sink: string, head: string, authors: string, commits: string)
    ensures sink + (head + authors + ") " + commits + "\n") == (sink + head + authors + ") ") + commits + "\n"
  {
  }

  /** `write_list`: nothing for no changes; otherwise the heading, a blank line, one line per change, a blank line. */
  method WriteList(sink: string, header: string, changes: seq<Change>) returns (out: string)
    requires Categorized(changes)
    ensures out == sink + ListBlock(header, changes)
  {
    if changes == [] {
      return sink;
    }
    ghost var heading := sink + (header + "\n\n");
    out := sink + (header + "\n\n");
    var i := 0;
    while i < |changes|
      invariant 0 <= i <= |changes|
      invariant out == heading + ChangeLines(changes[..i])
    {
      ghost var before := ChangeLines(changes[..i]);
      Text.ConcatPrefix(changes, i, ChangeLine);
      out := WriteChange(out, changes[i]);
      Assoc(heading, before, ChangeLine(changes[i]));
      i := i + 1;
    }
    assert changes[..i] == changes;
    ghost var lines := ChangeLines(changes);
    Assoc(heading, lines, "\n");
    Assoc(sink, header + "\n\n", lines);
    Assoc(sink, header + "\n\n" + lines, "\n");
    out := out + "\n";
  }

  // ---------------------------------------------------------------------
  // Sorting the authors
  // ---------------------------------------------------------------------

  lemma NameLeTotal(a: Author, b: Author)
    ensures NameLe(a, b) || NameLe(b, a)
  {
    Text.LexLeTotal(NameKey(a), NameKey(b));
  }

  lemma NameLeTrans(a: Author, b: Author, c: Author)
    requires NameLe(a, b) && NameLe(b, c)
    ensures NameLe(a, c)
  {
    Text.LexLeTrans(NameKey(a), NameKey(b), NameKey(c));
  }

  /** Exchange two neighbours. */
  method SwapAdjacent(a: array<Author>, j: int)
    requires 0 < j < a.Length
    modifies a
    ensures a[..] == old(a[..])[j - 1 := old(a[j])][j := old(a[j - 1])]
    ensures multiset(a[..]) == multiset(old(a[..]))
  {
    a[j - 1], a[j] := a[j], a[j - 1];
  }

  /**
   * `authors.sort_by(..)` on the lower-cased names: afterwards the array is
   * sorted by name and holds the same authors as before.
   */
  method SortByName(a: array<Author>)
    modifies a
    ensures SortedByName(a[..])
    ensures multiset(a[..]) == multiset(old(a[..]))
  {
    var i := 0;
    while i < a.Length
      invariant 0 <= i <= a.Length
      invariant forall k, l :: 0 <= k < l < i ==> NameLe(a[k], a[l])
      invariant multiset(a[..]) == multiset(old(a[..]))
    {
      var j := i;
      while j > 0 && !NameLe(a[j - 1], a[j])
        invariant 0 <= j <= i
        invariant forall k, l :: 0 <= k < l <= i && k != j && l != j ==> NameLe(a[k], a[l])
        invariant j < i ==> NameLe(a[j], a[j + 1])
        invariant multiset(a[..]) == multiset(old(a[..]))
      {
        NameLeTotal(a[j - 1], a[j]);
        SwapAdjacent(a, j);
        j := j - 1;
      }
      forall k, l | 0 <= k < l <= i
        ensures NameLe(a[k], a[l])
      {
        if l == j && k < j - 1 {
          NameLeTrans(a[k], a[j - 1], a[j]);
        } else if k == j && l > j + 1 {
          NameLeTrans(a[j], a[j + 1], a[l]);
        }
      }
      i := i + 1;
    }
  }

  // ---------------------------------------------------------------------
  // The message
  // ---------------------------------------------------------------------

  /** `get_authors` followed by the in-place sort of generate_msg. */
  method SortedAuthors(rel: Release) returns (authors: seq<Author>)
    ensures ThanksOrder(rel, authors)
  {
    var unique := GetAuthors(rel);
    var sorted := new Author[|unique|](i requires 0 <= i < |unique| => unique[i]);
    assert sorted[..] == unique;
    SortByName(sorted);
    authors := sorted[..];
    PermutationKeeps(unique, authors);
  }

  /** A permutation has the same members, and is duplicate-free iff the original is. */
  lemma PermutationKeeps<T>(s: seq<T>, t: seq<T>)
    requires multiset(s) == multiset(t)
    ensures NoDup(s) <==> NoDup(t)
    ensures forall x :: x in s <==> x in t
  {
    forall x
      ensures x in s <==> x in t
    {
      assert x in s <==> x in multiset(s);
      assert x in t <==> x in multiset(t);
    }
  }

  /** generate_msg's loop over the sorted authors writing `- [@name]` lines. */
  method WriteMentions(sink: string, authors: seq<Author>) returns (out: string)
    ensures out == sink + MentionLines(authors)
  {
    out := sink;
    for k := 0 to |authors|
      invariant out == sink + MentionLines(authors[..k])
    {
      ghost var before := MentionLines(authors[..k]);
      Text.ConcatPrefix(authors, k, MentionLine);
      out := out + MentionLine(authors[k]);
      Assoc(sink, before, MentionLine(authors[k]));
    }
    assert authors[..|authors|] == authors;
  }

  /** generate_msg's loop writing the author link definitions. */
  method WriteAuthorLinks(sink: string, authors: seq<Author>) returns (out: string)
    ensures out == sink + AuthorLinks(authors)
  {
    out := sink;
    for k := 0 to |authors|
      invariant out == sink + AuthorLinks(authors[..k])
    {
      ghost var before := AuthorLinks(authors[..k]);
      Text.ConcatPrefix(authors, k, AuthorLink);
      out := out + AuthorLink(authors[k]);
      Assoc(sink, before, AuthorLink(authors[k]));
    }
    assert authors[..|authors|] == authors;
  }

  /** generate_msg's loop writing one commit link definition per commit. */
  method WriteCommitLinks(sink: string, url: string, commits: seq<Commit>) returns (out: string)
    ensures out == sink + CommitLinks(url, commits)
  {
    out := sink;
    for k := 0 to |commits|
      invariant out == sink + CommitLinks(url, commits[..k])
    {
      ghost var before := CommitLinks(url, commits[..k]);
      Text.ConcatPrefix(commits, k, CommitLinkTo(url));
      out := out + CommitLink(url, commits[k]);
      Assoc(sink, before, CommitLink(url, commits[k]));
    }
    assert commits[..|commits|] == commits;
  }

  lemma Assoc(a: string, b: string, c: string)
    ensures (a + b) + c == a + (b + c)
  {
  }

  /**
   * `generate_msg`: the thanks section for the release's authors, sorted
   * by lower-cased name and each listed once, the four category blocks,
   * the author links and one commit link per commit of the release.
   */
  method GenerateMsg(sink: string, rel: Release) returns (out: string)
    requires ReleaseCategorized(rel)
    ensures exists authors :: ThanksOrder(rel, authors) && out == sink + Message(rel, authors)
  {
    out := sink + (ThanksHeader + "\n\n");
    ghost var text := ThanksHeader + "\n\n";

    var authors := SortedAuthors(rel);
    var commits := GetCommits(rel);

    out := WriteMentions(out, authors);
    Assoc(sink, text, MentionLines(authors));
    text := text + MentionLines(authors);
    out := out + "\n";
    Assoc(sink, text, "\n");
    text := text + "\n";

    out := WriteList(out, "### Added", rel.added);
    Assoc(sink, text, ListBlock("### Added", rel.added));
    text := text + ListBlock("### Added", rel.added);
    out := WriteList(out, "### Changed", rel.changed);
    Assoc(sink, text, ListBlock("### Changed", rel.changed));
    text := text + ListBlock("### Changed", rel.changed);
    out := WriteList(out, "### Fixed", rel.fixed);
    Assoc(sink, text, ListBlock("### Fixed", rel.fixed));
    text := text + ListBlock("### Fixed", rel.fixed);
    out := WriteList(out, "### Removed", rel.removed);
    Assoc(sink, text, ListBlock("### Removed", rel.removed));
    text := text + ListBlock("### Removed", rel.removed);

    out := WriteAuthorLinks(out, authors);
    Assoc(sink, text, AuthorLinks(authors));
    text := text + AuthorLinks(authors);
    out := out + "\n";
    Assoc(sink, text, "\n");
    text := text + "\n";

    out := WriteCommitLinks(out, rel.repo_url, commits);
    Assoc(sink, text, CommitLinks(rel.repo_url, commits));
    text := text + CommitLinks(rel.repo_url, commits);
    assert text == Message(rel, authors);
  }

  // ---------------------------------------------------------------------
  // What the message promises
  // ---------------------------------------------------------------------

  /** The commit links come category by category: added, changed, fixed, removed, none dropped. */
  lemma CommitLinksByCategory(rel: Release)
    ensures CommitLinks(rel.repo_url, GetCommits(rel))
         == CommitLinks(rel.repo_url, CommitsOf(rel.added)) + CommitLinks(rel.repo_url, CommitsOf(rel.changed))
          + CommitLinks(rel.repo_url, CommitsOf(rel.fixed)) + CommitLinks(rel.repo_url, CommitsOf(rel.removed))
  {
    var u := rel.repo_url;
    Text.ConcatAppend(CommitsOf(rel.added) + CommitsOf(rel.changed) + CommitsOf(rel.fixed), CommitsOf(rel.removed), CommitLinkTo(u));
    Text.ConcatAppend(CommitsOf(rel.added) + CommitsOf(rel.changed), CommitsOf(rel.fixed), CommitLinkTo(u));
    Text.ConcatAppend(CommitsOf(rel.added), CommitsOf(rel.changed), CommitLinkTo(u));
  }

  lemma HeadIn<T>(s: seq<T>)
    requires s != []
    ensures s[0] in s
  {
  }

  lemma NoDupTail<T>(s: seq<T>)
    requires NoDup(s) && |s| > 0
    ensures NoDup(s[1..])
    ensures forall x :: x in s[1..] <==> x in s && x != s[0]
  {
    assert s == [s[0]] + s[1..];
    assert multiset(s) == multiset{s[0]} + multiset(s[1..]);
    forall x | x in s[1..]
      ensures x != s[0] && multiset(s[1..])[x] == 1
    {
      assert x in multiset(s[1..]);
      assert x in multiset(s);
    }
  }

  /**
   * Two duplicate-free orderings of the same elements, both sorted on a key,
   * coincide when no two of the elements have the same key.
   */
  lemma {:induction false} SortedUnique<T>(a: seq<T>, b: seq<T>, key: T -> string)
    requires NoDup(a) && NoDup(b) && SortedOn(a, key) && SortedOn(b, key)
    requires forall x :: x in a <==> x in b
    requires forall x, y :: x in a && y in a && key(x) == key(y) ==> x == y
    ensures a == b
    decreases |a|
  {
    if a == [] {
      if b != [] {
        HeadIn(b);
        assert false;
      }
    } else {
      HeadIn(a);
      SameHead(a, b, key);
      NoDupTail(a);
      NoDupTail(b);
      SortedTail(a, key);
      SortedTail(b, key);
      SortedUnique(a[1..], b[1..], key);
      assert a == [a[0]] + a[1..];
      assert b == [b[0]] + b[1..];
    }
  }

  /** Both orderings start with the element of least key. */
  lemma SameHead<T>(a: seq<T>, b: seq<T>, key: T -> string)
    requires |a| > 0 && |b| > 0 && SortedOn(a, key) && SortedOn(b, key)
    requires forall x :: x in a <==> x in b
    requires forall x, y :: x in a && y in a && key(x) == key(y) ==> x == y
    ensures a[0] == b[0]
  {
    assert a[0] in a;
    var k :| 0 <= k < |b| && b[k] == a[0];
    assert b[0] in b;
    var m :| 0 <= m < |a| && a[m] == b[0];
    var ka, kb := key(a[0]), key(b[0]);
    assert Text.LexLe(kb, ka) by {
      if k > 0 {
        assert Text.LexLe(key(b[0]), key(b[k]));
      } else {
        Text.LexLeTotal(kb, ka);
      }
    }
    assert Text.LexLe(ka, kb) by {
      if m > 0 {
        assert Text.LexLe(key(a[0]), key(a[m]));
      } else {
        Text.LexLeTotal(ka, kb);
      }
    }
    Text.LexLeAntisym(ka, kb);
  }

  lemma SortedTail<T>(s: seq<T>, key: T -> string)
    requires SortedOn(s, key) && |s| > 0
    ensures SortedOn(s[1..], key)
  {
    forall i, j | 0 <= i < j < |s[1..]| ensures Text.LexLe(key(s[1..][i]), key(s[1..][j])) {
      assert s[1..][i] == s[i + 1] && s[1..][j] == s[j + 1];
    }
  }

  /**
   * The rendered text does not depend on the hash set's order as long as
   * no two authors of the release differ only in letter case.
   */
  lemma MessageDeterministic(rel: Release, a: seq<Author>, b: seq<Author>)
    requires ThanksOrder(rel, a) && ThanksOrder(rel, b)
    requires forall x, y :: x in a && y in a && NameKey(x) == NameKey(y) ==> x == y
    ensures a == b
    ensures Message(rel, a) == Message(rel, b)
  {
    SortedUnique(a, b, NameKey);
  }

  /**
   * Changes by "bob", "Alice" and "bob" again thank exactly "Alice" and
   * then "bob": the duplicate is dropped and the order ignores case.
   */
  lemma ThanksDedupAndSort(rel: Release, authors: seq<Author>)
    requires rel.added == [
      Change("feature", "one", OneOrMore([Author("bob")]), OneOrMore([Commit("1111111")])),
      Change("feature", "two", OneOrMore([Author("Alice")]), OneOrMore([Commit("2222222")])),
      Change("fix", "three", OneOrMore([Author("bob")]), OneOrMore([Commit("3333333")]))]
    requires rel.changed == [] && rel.fixed == [] && rel.removed == []
    requires ThanksOrder(rel, authors)
    ensures authors == [Author("Alice"), Author("bob")]
  {
    assert AllChanges(rel) == rel.added;
    ThreeChangeAuthors(rel.added[0], rel.added[1], rel.added[2]);
    ThanksOfBobAndAlice(AuthorsOf(rel.added), authors);
  }

  lemma ThanksOfBobAndAlice(all: seq<Author>, authors: seq<Author>)
    requires all == [Author("bob")] + [Author("Alice")] + [Author("bob")]
    requires NoDup(authors) && SortedByName(authors)
    requires forall a :: a in authors <==> a in all
    ensures authors == [Author("Alice"), Author("bob")]
  {
    var expected := [Author("Alice"), Author("bob")];
    ExpectedThanks();
    forall x ensures x in expected <==> x in authors {
      assert x in all <==> x == Author("bob") || x == Author("Alice");
    }
    SortedUnique(expected, authors, NameKey);
  }

  lemma ThreeChangeAuthors(x: Change, y: Change, z: Change)
    ensures AuthorsOf([x, y, z]) == x.authors.items + y.authors.items + z.authors.items
  {
    assert [x, y, z][..2] == [x, y];
    assert [x, y][..1] == [x];
    assert [x][..0] == [];
    assert AuthorsOf([x]) == x.authors.items;
    assert AuthorsOf([x, y]) == x.authors.items + y.authors.items;
  }

  /** Alice before bob: "alice" sorts before "bob", and the two keys differ. */
  lemma ExpectedThanks()
    ensures NoDup([Author("Alice"), Author("bob")])
    ensures SortedByName([Author("Alice"), Author("bob")])
    ensures NameKey(Author("Alice")) != NameKey(Author("bob"))
  {
    var expected := [Author("Alice"), Author("bob")];
    assert multiset(expected) == multiset{Author("Alice"), Author("bob")};
    assert NameKey(Author("Alice"))[0] == 'a';
    assert NameKey(Author("bob"))[0] == 'b';
  }

  /** Two texts agree character by character. */
  lemma SameText(l: string, r: string)
    requires |l| == |r|
    requires forall i :: 0 <= i < |l| ==> l[i] == r[i]
    ensures l == r
  {
  }

  lemma HeaderText()
    ensures ThanksHeader + "\n\n" == "Thanks to the following for their contributions:\n\n"
  {
    SameText(ThanksHeader + "\n\n", "Thanks to the following for their contributions:\n\n");
  }

  lemma AliceDisplay()
    ensures AuthorDisplay(Author("alice")) == "[@alice]"
  {
    SameText(AuthorDisplay(Author("alice")), "[@alice]");
  }

  lemma AliceTexts()
    ensures AuthorDisplay(Author("alice")) == "[@alice]"
    ensures MentionLine(Author("alice")) == "- [@alice]\n"
    ensures AuthorLink(Author("alice")) == "[@alice]: https://github.com/alice\n"
  {
    AliceDisplay();
    SameText("- " + "[@alice]" + "\n", "- [@alice]\n");
    SameText("[@alice]" + ": https://github.com/", "[@alice]: https://github.com/");
    SameText("[@alice]: https://github.com/" + "alice" + "\n", "[@alice]: https://github.com/alice\n");
  }

  lemma CommitDisplayText()
    ensures CommitDisplay(Commit("1234567")) == "[c:1234567]"
  {
    var commit := Commit("1234567");
    assert commit.hash[..7] == "1234567";
    SameText(CommitDisplay(commit), "[c:1234567]");
  }

  lemma CommitTexts()
    ensures CommitDisplay(Commit("1234567")) == "[c:1234567]"
    ensures CommitLink("https://github.com/o/r", Commit("1234567")) == "[c:1234567]: https://github.com/o/r/commit/1234567\n"
  {
    CommitDisplayText();
    SameText("[c:1234567]" + ": " + "https://github.com/o/r", "[c:1234567]: https://github.com/o/r");
    SameText("[c:1234567]: https://github.com/o/r" + "/commit/" + "1234567" + "\n",
      "[c:1234567]: https://github.com/o/r/commit/1234567\n");
  }

  lemma FixLinePieces(change: Change)
    requires change == Change("fix", "Fast parser", OneOrMore([Author("alice")]), OneOrMore([Commit("1234567")]))
    ensures ChangeLine(change) == "- [" + "fix" + "] " + "Fast parser" + " (" + "[@alice]" + ") " + "[c:1234567]" + "\n"
  {
    AliceTexts();
    CommitTexts();
    assert Text.Join(Shown(change.authors.items, AuthorDisplay), " ") == "[@alice]";
    assert Text.Join(Shown(change.commits.items, CommitDisplay), " ") == "[c:1234567]";
  }

  lemma FixLineLiteral()
    ensures "- [" + "fix" + "] " + "Fast parser" + " (" + "[@alice]" + ") " + "[c:1234567]" + "\n"
         == "- [fix] Fast parser ([@alice]) [c:1234567]\n"
  {
    SameText("- [" + "fix" + "] " + "Fast parser" + " (", "- [fix] Fast parser (");
    SameText("- [fix] Fast parser (" + "[@alice]" + ") ", "- [fix] Fast parser ([@alice]) ");
    SameText("- [fix] Fast parser ([@alice]) " + "[c:1234567]" + "\n", "- [fix] Fast parser ([@alice]) [c:1234567]\n");
  }

  lemma AddedBlockText(cs: seq<Change>)
    requires cs == [Change("fix", "Fast parser", OneOrMore([Author("alice")]), OneOrMore([Commit("1234567")]))]
    ensures ListBlock("### Added", cs) == "### Added\n\n" + "- [fix] Fast parser ([@alice]) [c:1234567]\n" + "\n"
  {
    FixLinePieces(cs[0]);
    FixLineLiteral();
    Text.ConcatOne(cs[0], ChangeLine);
    SameText("### Added" + "\n\n", "### Added\n\n");
  }

  /** The only admissible thanks order of a release whose one author is alice. */
  lemma OnlyAlice(rel: Release, authors: seq<Author>)
    requires rel.added == [Change("fix", "Fast parser", OneOrMore([Author("alice")]), OneOrMore([Commit("1234567")]))]
    requires rel.changed == [] && rel.fixed == [] && rel.removed == []
    requires ThanksOrder(rel, authors)
    ensures authors == [Author("alice")]
    ensures GetCommits(rel) == [Commit("1234567")]
  {
    var alice := Author("alice");
    assert AllChanges(rel) == rel.added;
    assert rel.added[..0] == [];
    assert AuthorsOf(rel.added) == [alice];
    assert GetCommits(rel) == CommitsOf(rel.added[..0]) + [Commit("1234567")];
    assert SortedByName([alice]);
    SortedUnique([alice], authors, NameKey);
  }

  /** The thanks line, the author link and the commit link of the one-change release. */
  lemma AliceLists(url: string, authors: seq<Author>, commits: seq<Commit>)
    requires url == "https://github.com/o/r"
    requires authors == [Author("alice")] && commits == [Commit("1234567")]
    ensures MentionLines(authors) == "- [@alice]\n"
    ensures AuthorLinks(authors) == "[@alice]: https://github.com/alice\n"
    ensures CommitLinks(url, commits) == "[c:1234567]: https://github.com/o/r/commit/1234567\n"
  {
    AliceTexts();
    CommitTexts();
    Text.ConcatOne(authors[0], MentionLine);
    Text.ConcatOne(authors[0], AuthorLink);
    Text.ConcatOne(commits[0], CommitLinkTo(url));
  }

  /**
   * A release with one added change by "alice" in commit "1234567" renders,
   * headings of the empty categories left out, line by line as below.
   */
  lemma RenderOneChange(rel: Release, authors: seq<Author>)
    requires rel == Release("https://github.com/o/r",
      [Change("fix", "Fast parser", OneOrMore([Author("alice")]), OneOrMore([Commit("1234567")]))], [], [], [])
    requires ThanksOrder(rel, authors)
    ensures Message(rel, authors) ==
      "Thanks to the following for their contributions:\n\n"
      + "- [@alice]\n" + "\n"
      + ("### Added\n\n" + "- [fix] Fast parser ([@alice]) [c:1234567]\n" + "\n")
      + "[@alice]: https://github.com/alice\n" + "\n"
      + "[c:1234567]: https://github.com/o/r/commit/1234567\n"
  {
    OnlyAlice(rel, authors);
    AliceLists(rel.repo_url, authors, GetCommits(rel));
    HeaderText();
    AddedBlockText(rel.added);
    OnlyAddedMessage(rel, authors);
  }

  /** With only added changes, the other three blocks contribute nothing. */
  lemma OnlyAddedMessage(rel: Release, authors: seq<Author>)
    requires rel.changed == [] && rel.fixed == [] && rel.removed == []
    ensures Message(rel, authors) == ThanksHeader + "\n\n" + MentionLines(authors) + "\n"
      + ListBlock("### Added", rel.added) + AuthorLinks(authors) + "\n" + CommitLinks(rel.repo_url, GetCommits(rel))
  {
    var start := ThanksHeader + "\n\n" + MentionLines(authors) + "\n" + ListBlock("### Added", rel.added);
    assert start + "" + "" + "" == start;
  }
}
