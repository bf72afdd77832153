/**
 * `generate_release` of src/main.rs: turning the commits a walk yields
 * into a release whose every change is an "added" change.
 */
module App {
  import opened ReleaseModel
  import Markdown
  import Git

  /** Every retrieved commit carries a hash `Change::new` accepts. */
  predicate HashesUsable(commits: seq<Git.Commit>)
  {
    forall i :: 0 <= i < |commits| ==> |commits[i].hash| >= 7
  }

  /** The change made of one retrieved commit: category "any", its summary, its author's name, its hash. */
  function ChangeOf(c: Git.Commit): Change
    requires |c.hash| >= 7
  {
    ChangeNew("any", c.message, c.author.name, c.hash)
  }

  /** One change per commit, in order. */
  function ChangesOf(commits: seq<Git.Commit>): (cs: seq<Change>)
    requires HashesUsable(commits)
    ensures |cs| == |commits|
    ensures forall i :: 0 <= i < |commits| ==> cs[i] == ChangeOf(commits[i])
  {
    seq(|commits|, i requires 0 <= i < |commits| => ChangeOf(commits[i]))
  }

  lemma ChangesOfSnoc(commits: seq<Git.Commit>, c: Git.Commit)
    requires HashesUsable(commits) && |c.hash| >= 7
    ensures HashesUsable(commits + [c])
    ensures ChangesOf(commits + [c]) == ChangesOf(commits) + [ChangeOf(c)]
  {
  }

  /** The release `generate_release` builds from the commits it collects. */
  function ReleaseOf(repoUrl: string, commits: seq<Git.Commit>): (rel: Release)
    requires HashesUsable(commits)
    ensures rel.repo_url == repoUrl && AllChanges(rel) == rel.added
    ensures Markdown.ReleaseCategorized(rel)
  {
    Release(repoUrl, ChangesOf(commits), [], [], [])
  }

  /** One more call of the iterator: what the drained list and the changes become. */
  lemma DrainStep(all: seq<Git.Commit>, taken: seq<Git.Commit>, cursor: seq<Git.Pull>, objects: map<Git.Oid, Git.CommitObject>, end: Git.Oid)
    requires all == taken + Git.Collect(cursor, objects, end)
    requires HashesUsable(taken)
    ensures Git.Step(cursor, objects, end).0.None? ==> all == taken
    ensures Git.Step(cursor, objects, end).0.Some? ==>
      var c := Git.Step(cursor, objects, end).0.value;
      && |c.hash| >= 7
      && all == (taken + [c]) + Git.Collect(Git.Step(cursor, objects, end).1, objects, end)
      && HashesUsable(taken + [c])
      && ChangesOf(taken + [c]) == ChangesOf(taken) + [ChangeOf(c)]
  {
    Git.CollectStep(cursor, objects, end);
    var step := Git.Step(cursor, objects, end);
    if step.0.None? {
      assert taken + [] == taken;
    } else {
      var c := step.0.value;
      var rest := Git.Collect(step.1, objects, end);
      assert taken + ([c] + rest) == (taken + [c]) + rest;
      ChangesOfSnoc(taken, c);
    }
  }

  /**
   * `generate_release`: drain the iterator, one change per commit, in
   * the order the walk yields them.
   */
  method GenerateRelease(repoUrl: string, commits: Git.Commits) returns (rel: Release)
    modifies commits
    ensures commits.end == old(commits.end)
    ensures HashesUsable(Git.Collect(old(commits.inner), commits.repo.objects, old(commits.end)))
    ensures rel == ReleaseOf(repoUrl, Git.Collect(old(commits.inner), commits.repo.objects, old(commits.end)))
  {
    ghost var objects, end := commits.repo.objects, commits.end;
    ghost var all := Git.Collect(commits.inner, objects, end);
    var added: seq<Change> := [];
    ghost var taken: seq<Git.Commit> := [];
    while true
      invariant commits.end == end
      invariant all == taken + Git.Collect(commits.inner, objects, end)
      invariant HashesUsable(taken)
      invariant added == ChangesOf(taken)
      decreases |commits.inner|
    {
      ghost var cursor := commits.inner;
      DrainStep(all, taken, cursor, objects, end);
      var next := commits.Next();
      if next.None? {
        break;
      }
      added := added + [ChangeOf(next.value)];
      taken := taken + [next.value];
    }
    rel := Release(repoUrl, added, [], [], []);
  }

  /** A release of single-commit changes lists one commit per change, in order. */
  lemma {:induction false} SingleCommits(cs: seq<Change>)
    requires forall i :: 0 <= i < |cs| ==> |cs[i].commits.items| == 1
    ensures |CommitsOf(cs)| == |cs|
    ensures forall i :: 0 <= i < |cs| ==> CommitsOf(cs)[i] == cs[i].commits.items[0]
  {
    if cs != [] {
      SingleCommits(cs[..|cs| - 1]);
    }
  }

  /** The release's commit list is the retrieved hashes, in walk order. */
  lemma ReleaseCommitsInOrder(repoUrl: string, commits: seq<Git.Commit>)
    requires HashesUsable(commits)
    ensures |GetCommits(ReleaseOf(repoUrl, commits))| == |commits|
    ensures forall i :: 0 <= i < |commits| ==> GetCommits(ReleaseOf(repoUrl, commits))[i].hash == commits[i].hash
  {
    var rel := ReleaseOf(repoUrl, commits);
    assert AllChanges(rel) == rel.added;
    SingleCommits(rel.added);
  }

  /** The release's authors are exactly the retrieved commits' author names. */
  lemma ReleaseAuthors(repoUrl: string, commits: seq<Git.Commit>, a: Author)
    requires HashesUsable(commits)
    ensures a in GetAuthors(ReleaseOf(repoUrl, commits)) <==> exists i :: 0 <= i < |commits| && a.name == commits[i].author.name
  {
    var rel := ReleaseOf(repoUrl, commits);
    GetAuthorsExactly(rel, a);
    if exists i :: 0 <= i < |commits| && a.name == commits[i].author.name {
      var i :| 0 <= i < |commits| && a.name == commits[i].author.name;
      assert rel.added[i] in rel.added && a in rel.added[i].authors.items;
    }
  }

  /**
   * From walk to release: with the end id set to a commit of the walk, the
   * release lists the walk's commits up to and including it, newest first.
   */
  lemma BoundedRetrieve(repoUrl: string, ids: seq<Git.Oid>, tail: seq<Git.Pull>, objects: map<Git.Oid, Git.CommitObject>, end: Git.Oid)
    requires |ids| > 0 && ids[|ids| - 1] == end
    requires forall i :: 0 <= i < |ids| - 1 ==> ids[i] != end
    requires forall i :: 0 <= i < |ids| ==> ids[i] in objects
    ensures HashesUsable(Git.Collect(Git.Yields(ids) + tail, objects, end))
    ensures |GetCommits(ReleaseOf(repoUrl, Git.Collect(Git.Yields(ids) + tail, objects, end)))| == |ids|
    ensures forall i :: 0 <= i < |ids| ==> GetCommits(ReleaseOf(repoUrl, Git.Collect(Git.Yields(ids) + tail, objects, end)))[i].hash == ids[i]
  {
    Git.InclusiveBoundary(ids, tail, objects, end, 0);
    ReleaseCommitsInOrder(repoUrl, Git.Records(ids, objects));
  }
}
