# release-maker, modelled in Dafny

release-maker drafts the changelog text of a GitHub release. These are its two halves:

- **retrieve** walks a branch of a git repository. The walk goes from the commit the remote-tracking reference `refs/remotes/origin/<branch>` points at, or from an explicit start commit. It stops after an inclusive end commit, if one is given. Each commit it reaches becomes an "added" change of a release.
- **generate** reads a release and renders it as markdown:
  - a thanks section that lists each author once, ordered by lower-cased name;
  - one block per non-empty category (Added, Changed, Fixed, Removed);
  - a reference link for every author and one for every commit.

The model has five modules:

- `ReleaseModel` (`release.dfy`), the release description:
  - The `OneOrMore` codec. One item is written as a bare string and any other count as an array. A decoded list is never empty.
  - Authors and their `[@name]` display.
  - Commits, whose hash is never shorter than seven characters, and their `[c:1234567]` display.
  - Changes, and releases with their author and commit projections.

  The data values a structured format can hold appear as a `Value` with three cases: string, array or anything else.
- `Text` (`text.dfy`): the joined text `write_separated` produces, ASCII lower-casing, and the lexicographic order of strings.
- `Markdown` (`markdown.dfy`): the renderer as methods.
  - The text sink is a string. Each writer takes it and returns it with its own output appended.
  - Each writer is proved against a function that gives the whole text. `GenerateMsg` is proved against `Message`, which holds for some ordering of the authors that satisfies `ThanksOrder`.
  - The authors are sorted in place, by insertion sort on an array.
- `Git` (`git.dfy`): the `Commits` iterator as a class.
  - Its fields are the repository, the revision-walk cursor and the end id. `Start`, `End` and `Next` update them.
  - The git library is replaced by data:
    - the references;
    - for each commit, the topological walk seeded at that commit alone;
    - a partial lookup from id to commit object.
  - An object id is its canonical text: forty lower-case hex digits. `OidFromStr` parses ids the way git does. Upper case is accepted. A shorter string is padded on the right with zeros, so `"0"` is the all-zero id the iterator starts with as its end. It follows that an abbreviated hash given as the end boundary names the zero-padded id, not the commit it abbreviates (`Git.ShortHashPadded`).
- `App` (`app.dfy`): `generate_release`, which drains the iterator into a release of "any"-category added changes. There are also lemmas linking the walk to the release's commit and author lists.

## Model

| member | source | states |
|---|---|---|
| ReleaseModel.Encode | src/release.rs:23-35 | exactly one item is written as that item's bare string; any other count is written as an array of the items' strings, in order |
| ReleaseModel.VisitStr | src/release.rs:55-62 | a string decodes to the one-item list of its conversion; a failed conversion gives the custom error "failed to parse from string" |
| ReleaseModel.ParseEach | src/release.rs:66-74 | the array converts iff every element is a string that converts; the items are the conversions in order, with the same count; otherwise the first element that does not convert decides the error: a non-string is an invalid type, a string that does not convert is "failed to parse from string" |
| ReleaseModel.VisitSeq | src/release.rs:64-79 | the element loop returns what `DecodeArray` specifies, and an empty array is rejected with "expected at least one string" |
| ReleaseModel.Decode | src/release.rs:42-83 | a decoded list is never empty; a value that is neither string nor array is an invalid type; the string case and the array case succeed exactly when every string converts; an empty array is the at-least-one failure; otherwise a failing array is rejected by its first bad element, invalid type for a non-string and "failed to parse from string" for a string that does not convert |
| ReleaseModel.RoundTrip | src/release.rs:19-83 | decoding what was encoded gives back the list iff the list is non-empty and every item survives its own string round trip |
| ReleaseModel.AuthorShow | src/release.rs:87-88 | an author is written as its bare name, which converts back to that author |
| ReleaseModel.AuthorTryFrom | src/release.rs:115-121 | every string converts to the author of that name |
| ReleaseModel.AuthorDisplay | src/release.rs:107-113 | an author displays as `[@`, the name, then `]`: three characters longer than the name |
| ReleaseModel.AuthorDisplayInjective | src/release.rs:107-113 | `[@name]` is three characters longer than the name, contains the name at offset 2, and distinct authors display distinctly |
| ReleaseModel.AuthorRoundTrip | src/release.rs:86-122 | an author list survives encoding and decoding iff it is non-empty |
| ReleaseModel.CommitNew | src/release.rs:135-145 | the commit keeps the given hash; a hash shorter than seven characters is refused |
| ReleaseModel.CommitShow | src/release.rs:125-126 | a commit is written as its bare hash, at least seven characters, which converts back to that commit |
| ReleaseModel.CommitTryFrom | src/release.rs:185-191 | conversion fails exactly for strings shorter than seven characters, and the error carries the offending string; otherwise the hash is kept |
| ReleaseModel.CommitDisplay | src/release.rs:194-200 | a commit displays as `[c:`, the first seven characters of its hash, then `]`: eleven characters in all |
| ReleaseModel.CommitDisplayShort | src/release.rs:194-200 | a commit displays in eleven characters holding the first seven of its hash; two displays agree iff the seven-character prefixes do |
| ReleaseModel.CommitRoundTrip | src/release.rs:124-192 | a commit list survives encoding and decoding iff it is non-empty |
| ReleaseModel.ChangeNew | src/release.rs:219-232 | the change has the given category and name, exactly one author of the given name and exactly one commit of the given hash |
| ReleaseModel.AllChanges | src/release.rs:255-261 | the changes of the four lists in the order added, changed, fixed, removed, each list appearing whole at its own position, so nothing is dropped, added or reordered |
| ReleaseModel.Dedup | src/release.rs:267-269 | the result holds each element once and has exactly the members of the input |
| ReleaseModel.GetAuthors | src/release.rs:264-270 | the release's authors without duplicates, with the same members as the flattened author lists of all changes |
| ReleaseModel.AuthorsOfAppend | src/release.rs:255-266 | flattening the authors of two change lists concatenates their flattenings |
| ReleaseModel.CommitsOfAppend | src/release.rs:255-275 | flattening the commits of two change lists concatenates their flattenings |
| ReleaseModel.AuthorsOfMember | src/release.rs:264-266 | an author is in the flattening iff some change lists it |
| ReleaseModel.CommitsOfMember | src/release.rs:273-275 | a commit is in the flattening iff some change lists it |
| ReleaseModel.GetAuthorsExactly | src/release.rs:254-270 | an author is returned iff some change in one of the four categories lists it |
| ReleaseModel.GetCommits | src/release.rs:273-277 | the commits are those of added, changed, fixed and removed, in that order, duplicates kept |
| ReleaseModel.CommitsOfSnoc | src/release.rs:273-277 | a further change contributes all its commits after the earlier ones, so nothing is deduplicated |
| Text.JoinFront | src/release.rs:286-296 | the joined text starts with the first item, then the separator, then the rest joined |
| Text.JoinInterleaved | src/release.rs:286-296 | the joined text is the first item followed by every later item, in order, each preceded by exactly one separator: no leading and no trailing separator |
| Text.JoinLength | src/release.rs:286-296 | the joined text is as long as all the items together plus one separator for each gap between neighbours |
| Text.ConcatAppend | src/release.rs:308-320 | the lines written for two lists back to back are the first list's lines followed by the second's, nothing added or dropped at the seam |
| Text.LexLeTotal | src/release.rs:337 | any two keys compare one way or the other |
| Text.LexLeTrans | src/release.rs:337 | the key order is transitive |
| Text.LexLeAntisym | src/release.rs:337 | keys that compare both ways are equal |
| Markdown.NameLeTotal | src/release.rs:337 | any two authors compare by lower-cased name one way or the other |
| Markdown.NameLeTrans | src/release.rs:337 | the lower-cased name order is transitive |
| Markdown.WriteSeparated | src/release.rs:280-299 | appends the items' displays with the separator between neighbours only (the `first` flag) |
| Markdown.WriteChange | src/release.rs:308-320 | appends `- [category] name (authors) commits` and a newline for one change |
| Markdown.WriteList | src/release.rs:301-325 | appends nothing for no changes; otherwise the heading, a blank line, one line per change in order, and a blank line |
| Markdown.SortByName | src/release.rs:337 | the array ends up sorted by lower-cased name and is a permutation of what it held |
| Markdown.SortedAuthors | src/release.rs:335-337 | the release's authors, each once, all of them, sorted by lower-cased name |
| Markdown.WriteMentions | src/release.rs:341-343 | appends one `- [@name]` line per author in order |
| Markdown.WriteAuthorLinks | src/release.rs:352-354 | appends one `[@name]: https://github.com/name` line per author in order |
| Markdown.WriteCommitLinks | src/release.rs:358-366 | appends one `[c:short]: url/commit/hash` line per commit in order |
| Markdown.GenerateMsg | src/release.rs:332-369 | appends the whole message (header, thanks list, the four category blocks, author links, commit links) for an author order that lists each author once, all of them, sorted by lower-cased name |
| Markdown.CommitLinksByCategory | src/release.rs:339-366 | the commit links are those of added, then changed, fixed and removed changes |
| Markdown.SortedUnique | src/release.rs:335-337 | two duplicate-free sorted orderings of the same authors are equal when no two names coincide after lower-casing |
| Markdown.MessageDeterministic | src/release.rs:332-369 | the message does not depend on the hash set's iteration order unless two authors differ only in case |
| Markdown.ThanksDedupAndSort | src/release.rs:335-337 | changes by bob, Alice and bob thank exactly Alice and then bob |
| Markdown.RenderOneChange | src/release.rs:332-369 | a release with one added change renders line by line to the expected text, with the empty categories left out |
| Git.OidFromStr | src/git.rs:53-56 | succeeds iff the string has one to forty hex digits; the id is the digits lower-cased, then zeros; empty and over-long strings get their own errors |
| Git.ZeroFromStr | src/git.rs:138 | "0" parses to the all-zero id |
| Git.OidFromOwnText | src/git.rs:77 | an id's own forty-digit text parses back to that id |
| Git.ShortHashPadded | src/git.rs:53-56 | a hash shorter than forty digits never names an id whose last digit is not zero |
| Git.Extract | src/git.rs:73-87 | the yielded record carries the looked-up id as its hash, and the object's author, committer and summary |
| Git.Step | src/git.rs:62-96 | an exhausted cursor yields nothing and stays exhausted; a pull error or a failed lookup yields nothing and consumes the pull; otherwise the commit's record is yielded, and the cursor is emptied iff that commit is the end |
| Git.Collect | src/main.rs:72-80 | collecting the iterator takes at most one record per pull, and every record's hash names a commit of the repository |
| Git.StaysExhausted | src/git.rs:89-95 | once the walk is reset, every later call returns nothing |
| Git.InclusiveBoundary | src/git.rs:62-96 | the calls yield the records up to and including the end commit, then nothing forever, whatever the walk would have produced after it |
| Git.WholeWalk | src/git.rs:135-139 | with the end id absent from the walk (the zero sentinel), the whole walk is yielded, then nothing |
| Git.FailureEndsCollect | src/git.rs:63-71 | a pull error or an unresolvable id ends what is collected, and the pulls after it stay in the cursor |
| Git.CollectedHashes | src/git.rs:77 | every collected record's hash is the commit's full forty-digit id |
| Git.Commits.constructor | src/git.rs:135-139 | the iterator holds the given repository, cursor and end id |
| Git.Commits.Start | src/git.rs:41-45 | the cursor becomes the walk seeded solely at the parsed commit; the end is unchanged; an invalid hash or a non-commit is refused |
| Git.Commits.End | src/git.rs:53-56 | the end becomes the parsed id; the cursor is unchanged; an invalid hash is refused |
| Git.Commits.Next | src/git.rs:62-96 | one call returns and leaves behind what `Step` gives; the end is unchanged |
| Git.OpenCommits | src/git.rs:126-140 | a missing reference or a target that is not a commit is an error; the call succeeds exactly when the reference exists and its target is a commit, giving a fresh iterator over the target's walk with the all-zero end |
| App.ReleaseOf | src/main.rs:72-80 | the release keeps the repository URL, holds only added changes, and can be rendered (every change has a category) |
| App.GenerateRelease | src/main.rs:72-80 | draining the iterator gives the release of exactly the commits collected against the iterator's end id, which the call leaves as it was, one "any" change per commit, in walk order |
| App.SingleCommits | src/main.rs:76 | changes with one commit each contribute one commit each, in order |
| App.ReleaseCommitsInOrder | src/main.rs:72-80 | the release's commit list is the retrieved hashes in walk order |
| App.ReleaseAuthors | src/main.rs:72-80 | the release's authors are exactly the retrieved commits' author names |
| App.BoundedRetrieve | src/main.rs:72-80 | with an end boundary in the walk, the release lists the walk's commits up to and including it, newest first |

## Left out

- The serialization framework and JSON itself are not modelled. What is left out:
  - the derived encodings of `Change` and `Release`;
  - the derived `Deserialize` of `Author` and `Commit`, which `OneOrMore` never calls: it converts through `TryFrom` instead;
  - the missing-list default of `Release`'s four categories;
  - the `expecting` message.

  Decoding is modelled on a three-case `Value`.
- The `assert!` in `visit_seq` on an empty array panics; it is not an ordinary decode error. It is modelled as the distinct error `Panic("expected at least one string")`. A plain error return would have described this case differently.
- The renderer's `assert!` on an empty category, and the `Commit::new` panic on a short hash, are stated as `requires` (`Categorized`, `|hash| >= 7`).
- `fmt::Write` errors are not modelled. The sink is a string, and writes to it never fail.
- ReleaseModel.GetAuthors: the hash set's iteration order is unspecified. The model picks first occurrence. `GenerateMsg` promises the message of some admissible order. `MessageDeterministic` shows that this is the message of every admissible order when no two authors differ only in letter case.
- Markdown.SortByName: stability is not stated. The order of authors whose names differ only in case is unspecified, because their input order (the hash set's) is unspecified too.
- Text.Lower: lower-cases ASCII letters only; Unicode case mapping is not modelled.
- ReleaseModel.CommitDisplay: lengths and slices count characters, while Rust counts bytes. A hash with non-ASCII characters may display differently in the model, and the source may panic on a character boundary.
- The git library is replaced by data. Out of the model:
  - `Repository::open` and `url`;
  - the topological sorting itself: the walk for each seed is given;
  - symbolic references, whose `target().unwrap()` panics;
  - the `unwrap` panics on signatures and summaries that are not UTF-8;
  - the `unwrap` panic of `reset`.
- Git.Commits.Start: a parse failure or a failed push panics in the source. Both are preconditions here.
- Git.Commits.End: a hash that does not parse panics in the source (the `unwrap` of src/git.rs:54). It is a precondition here.
- Git.Run: its contract only fixes the number of results. What the calls return is stated by `StaysExhausted`, `InclusiveBoundary` and `WholeWalk`.
- The command line is not modelled: `retrieve` and `generate` (argument parsing, files, standard input and output, pretty-printed JSON, and the example, explanation and gotchas texts).
