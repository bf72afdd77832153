/**
 * The bounded commit walk of src/git.rs. The git library is replaced by an
 * abstract repository: its remote-tracking references, the topological
 * walk seeded at each commit (a sequence of pulls), and a partial lookup
 * from object id to commit object.
 */
module Git {
  import opened Wrappers
  import Text

  /** A git identity: name and e-mail address. */
  datatype User = User(name: string, email: string)

  /** One extracted commit: its full id, author, committer and summary line. */
  datatype Commit = Commit(hash: string, author: User, committer: User, message: string)

  // ---------------------------------------------------------------------
  // Object ids
  // ---------------------------------------------------------------------

  /** A hex digit of either case, as an id string may use. */
  predicate IsHexDigit(c: char)
  {
    '0' <= c <= '9' || 'a' <= c <= 'f' || 'A' <= c <= 'F'
  }

  predicate IsLowerHexDigit(c: char)
  {
    '0' <= c <= '9' || 'a' <= c <= 'f'
  }

  /** The canonical text of an object id: forty lower-case hex digits. */
  predicate IsOidText(s: string)
  {
    |s| == 40 && forall i :: 0 <= i < |s| ==> IsLowerHexDigit(s[i])
  }

  /** An object id, identified with its canonical text (what `Oid::to_string` gives). */
  type Oid = s: string | IsOidText(s) witness "0000000000000000000000000000000000000000"

  /** The all-zero id. */
  const Zero: Oid := seq(40, _ => '0')

  /** Why a string is not an object id. */
  datatype OidError = TooShort | TooLong | InvalidCharacters

  /** What `Oid::from_str` accepts: one to forty hex digits. */
  predicate IsHexId(s: string)
  {
    0 < |s| <= 40 && forall i :: 0 <= i < |s| ==> IsHexDigit(s[i])
  }

  /**
   * `Oid::from_str`: the digits, lower-cased, fill the id from the left and
   * the rest of it is zeros.
   */
  function OidFromStr(s: string): (r: Result<Oid, OidError>)
    ensures r.Ok? <==> IsHexId(s)
    ensures |s| == 0 ==> r == Err(TooShort)
    ensures |s| > 40 ==> r == Err(TooLong)
    ensures r.Ok? ==> forall i :: 0 <= i < |s| ==> r.value[i] == Text.LowerChar(s[i])
    ensures r.Ok? ==> forall i :: |s| <= i < 40 ==> r.value[i] == '0'
  {
    if |s| == 0 then Err(TooShort)
    else if |s| > 40 then Err(TooLong)
    else if exists i :: 0 <= i < |s| && !IsHexDigit(s[i]) then Err(InvalidCharacters)
    else
      var text := seq(|s|, i requires 0 <= i < |s| => Text.LowerChar(s[i])) + seq(40 - |s|, _ => '0');
      assert IsOidText(text);
      Ok(text)
  }

  /** The sentinel `end`: "0" parses to the all-zero id. */
  lemma ZeroFromStr()
    ensures OidFromStr("0") == Ok(Zero)
  {
    assert IsHexDigit("0"[0]);
    assert IsHexId("0");
    var r := OidFromStr("0");
    assert forall i :: 0 <= i < 40 ==> r.value[i] == Zero[i];
    assert r.value == Zero;
  }

  /** An id's own text parses back to that id, so a full hash names its commit. */
  lemma OidFromOwnText(id: Oid)
    ensures OidFromStr(id) == Ok(id)
  {
    assert IsHexId(id);
    var r := OidFromStr(id);
    assert forall i :: 0 <= i < 40 ==> r.value[i] == id[i];
    assert r.value == id;
  }

  /** A hash shorter than forty digits stands for the id that continues it with zeros, not for a prefix. */
  lemma ShortHashPadded(s: string, id: Oid)
    requires IsHexId(s) && |s| < 40
    requires id[39] != '0'
    ensures OidFromStr(s).value != id
  {
  }

  // ---------------------------------------------------------------------
  // The repository as the walk sees it
  // ---------------------------------------------------------------------

  /** A commit object: its author and committer signatures and its summary. */
  datatype CommitObject = CommitObject(author: User, committer: User, summary: string)

  /** One pull from the revision walk: the next id, or an error. */
  datatype Pull = Yield(id: Oid) | Fail

  /**
   * A repository: reference name to target id; for every commit the
   * topological walk seeded solely at it; id to commit object (partial).
   */
  datatype Repository = Repository(refs: map<string, Oid>, walks: map<Oid, seq<Pull>>, objects: map<Oid, CommitObject>)

  /** Why `commits` cannot start a walk. */
  datatype GitError = ReferenceNotFound(name: string) | NotACommit(id: Oid)

  const RemotePrefix := "refs/remotes/origin/"

  /** The reference a branch name stands for. */
  function RefName(branch: string): string
  {
    RemotePrefix + branch
  }

  /** The record yielded for a looked-up commit. */
  function Extract(id: Oid, obj: CommitObject): (c: Commit)
    ensures c.hash == id && IsOidText(c.hash)
    ensures c.author == obj.author && c.committer == obj.committer && c.message == obj.summary
  {
    Commit(id, obj.author, obj.committer, obj.summary)
  }

  // ---------------------------------------------------------------------
  // The iterator's transition, and what repeated calls give
  // ---------------------------------------------------------------------

  /**
   * One call of `next` on the cursor: pull an id; yield nothing on an error,
   * an exhausted cursor or a failed lookup; otherwise yield the commit's
   * record and, if it is the end boundary, leave an empty cursor behind.
   */
  function Step(cursor: seq<Pull>, objects: map<Oid, CommitObject>, end: Oid): (out: (Option<Commit>, seq<Pull>))
    ensures cursor == [] ==> out == (None, [])
    ensures cursor != [] ==> |out.1| < |cursor|
    ensures out.0.Some? <==> cursor != [] && cursor[0].Yield? && cursor[0].id in objects
    ensures out.0.Some? ==> out.0.value == Extract(cursor[0].id, objects[cursor[0].id])
    ensures out.0.Some? ==> out.1 == if cursor[0].id == end then [] else cursor[1..]
    ensures cursor != [] && out.0.None? ==> out.1 == cursor[1..]
  {
    if cursor == [] then (None, [])
    else
      match cursor[0]
      case Fail => (None, cursor[1..])
      case Yield(id) =>
        if id !in objects then (None, cursor[1..])
        else (Some(Extract(id, objects[id])), if id == end then [] else cursor[1..])
  }

  /** What `n` consecutive calls of `next` return. */
  function Run(cursor: seq<Pull>, objects: map<Oid, CommitObject>, end: Oid, n: nat): (r: seq<Option<Commit>>)
    ensures |r| == n
    decreases n
  {
    if n == 0 then []
    else
      var (x, rest) := Step(cursor, objects, end);
      [x] + Run(rest, objects, end, n - 1)
  }

  /** What `collect` takes from the iterator: the records up to the first `None`. */
  function Collect(cursor: seq<Pull>, objects: map<Oid, CommitObject>, end: Oid): (r: seq<Commit>)
    ensures |r| <= |cursor|
    ensures forall i :: 0 <= i < |r| ==> r[i].hash in objects
    decreases |cursor|
  {
    var (x, rest) := Step(cursor, objects, end);
    match x
    case None => []
    case Some(c) => [c] + Collect(rest, objects, end)
  }

  /** `collect` takes what one call yields, then what the remaining cursor gives. */
  lemma CollectStep(cursor: seq<Pull>, objects: map<Oid, CommitObject>, end: Oid)
    ensures Step(cursor, objects, end).0.None? ==> Collect(cursor, objects, end) == []
    ensures Step(cursor, objects, end).0.Some? ==>
      Collect(cursor, objects, end) == [Step(cursor, objects, end).0.value] + Collect(Step(cursor, objects, end).1, objects, end)
  {
  }

  /** A cursor that yields exactly the given ids. */
  function Yields(ids: seq<Oid>): (r: seq<Pull>)
    ensures |r| == |ids|
    ensures forall i :: 0 <= i < |ids| ==> r[i] == Yield(ids[i])
  {
    seq(|ids|, i requires 0 <= i < |ids| => Yield(ids[i]))
  }

  /** The records of the given ids, all of which must resolve. */
  function Records(ids: seq<Oid>, objects: map<Oid, CommitObject>): (r: seq<Commit>)
    requires forall i :: 0 <= i < |ids| ==> ids[i] in objects
    ensures |r| == |ids|
    ensures forall i :: 0 <= i < |ids| ==> r[i] == Extract(ids[i], objects[ids[i]])
  {
    seq(|ids|, i requires 0 <= i < |ids| => Extract(ids[i], objects[ids[i]]))
  }

  function Found(cs: seq<Commit>): (r: seq<Option<Commit>>)
    ensures |r| == |cs|
    ensures forall i :: 0 <= i < |cs| ==> r[i] == Some(cs[i])
  {
    seq(|cs|, i requires 0 <= i < |cs| => Some(cs[i]))
  }

  function Nones(n: nat): (r: seq<Option<Commit>>)
    ensures |r| == n
    ensures forall i :: 0 <= i < n ==> r[i] == None
  {
    seq(n, _ => None)
  }

  /** Once exhausted, the iterator returns `None` on every later call. */
  lemma {:induction false} StaysExhausted(objects: map<Oid, CommitObject>, end: Oid, n: nat)
    ensures Run([], objects, end, n) == Nones(n)
  {
    if n > 0 {
      StaysExhausted(objects, end, n - 1);
      assert Run([], objects, end, n) == [None] + Nones(n - 1);
    }
  }

  lemma YieldsCons(ids: seq<Oid>, tail: seq<Pull>)
    requires |ids| > 0
    ensures Yields(ids) + tail == [Yield(ids[0])] + (Yields(ids[1..]) + tail)
  {
  }

  lemma RecordsCons(ids: seq<Oid>, objects: map<Oid, CommitObject>)
    requires |ids| > 0
    requires forall i :: 0 <= i < |ids| ==> ids[i] in objects
    ensures Records(ids, objects) == [Extract(ids[0], objects[ids[0]])] + Records(ids[1..], objects)
    ensures Found(Records(ids, objects)) == [Some(Extract(ids[0], objects[ids[0]]))] + Found(Records(ids[1..], objects))
  {
    var r := Records(ids, objects);
    var t := Records(ids[1..], objects);
    assert r[1..] == t by {
      forall i | 0 <= i < |t| ensures r[1..][i] == t[i] {
        assert ids[1..][i] == ids[i + 1];
      }
    }
    assert r == [r[0]] + r[1..];
    FoundCons(r);
  }

  lemma FoundCons(cs: seq<Commit>)
    requires |cs| > 0
    ensures Found(cs) == [Some(cs[0])] + Found(cs[1..])
  {
  }

  /** One call that finds a resolvable id at the front of the cursor. */
  lemma RunYield(id: Oid, rest: seq<Pull>, objects: map<Oid, CommitObject>, end: Oid, n: nat)
    requires id in objects
    ensures Run([Yield(id)] + rest, objects, end, n + 1)
         == [Some(Extract(id, objects[id]))] + Run(if id == end then [] else rest, objects, end, n)
    ensures Collect([Yield(id)] + rest, objects, end)
         == [Extract(id, objects[id])] + Collect(if id == end then [] else rest, objects, end)
  {
    assert ([Yield(id)] + rest)[1..] == rest;
  }

  /**
   * Inclusive end boundary: when the end id is the first id of the walk to
   * equal it and every id before it resolves, the calls yield the records up
   * to and including the end commit, then `None` forever, whatever the walk
   * would have produced afterwards.
   */
  lemma {:induction false} InclusiveBoundary(ids: seq<Oid>, tail: seq<Pull>, objects: map<Oid, CommitObject>, end: Oid, m: nat)
    requires |ids| > 0 && ids[|ids| - 1] == end
    requires forall i :: 0 <= i < |ids| - 1 ==> ids[i] != end
    requires forall i :: 0 <= i < |ids| ==> ids[i] in objects
    ensures Run(Yields(ids) + tail, objects, end, |ids| + m) == Found(Records(ids, objects)) + Nones(m)
    ensures Collect(Yields(ids) + tail, objects, end) == Records(ids, objects)
  {
    if |ids| == 1 {
      BoundaryLast(ids, tail, objects, end, m);
    } else {
      var rest := ids[1..];
      BoundaryTail(ids, objects, end);
      InclusiveBoundary(rest, tail, objects, end, m);
      BoundaryStep(ids, rest, tail, objects, end, m);
    }
  }

  lemma BoundaryTail(ids: seq<Oid>, objects: map<Oid, CommitObject>, end: Oid)
    requires |ids| > 1 && ids[|ids| - 1] == end
    requires forall i :: 0 <= i < |ids| - 1 ==> ids[i] != end
    requires forall i :: 0 <= i < |ids| ==> ids[i] in objects
    ensures ids[0] != end && ids[1..][|ids| - 2] == end
    ensures forall i :: 0 <= i < |ids| - 2 ==> ids[1..][i] != end
    ensures forall i :: 0 <= i < |ids| - 1 ==> ids[1..][i] in objects
  {
  }

  /** The end commit is the first one pulled: it is yielded, and the cursor is emptied. */
  lemma BoundaryLast(ids: seq<Oid>, tail: seq<Pull>, objects: map<Oid, CommitObject>, end: Oid, m: nat)
    requires ids == [end] && end in objects
    ensures Run(Yields(ids) + tail, objects, end, |ids| + m) == Found(Records(ids, objects)) + Nones(m)
    ensures Collect(Yields(ids) + tail, objects, end) == Records(ids, objects)
  {
    YieldsCons(ids, tail);
    RunYield(end, Yields([]) + tail, objects, end, m);
    RecordsCons(ids, objects);
    StaysExhausted(objects, end, m);
    assert Collect([], objects, end) == [];
  }

  /** A commit before the end is yielded, and the walk goes on with the rest of the pulls. */
  lemma BoundaryStep(ids: seq<Oid>, rest: seq<Oid>, tail: seq<Pull>, objects: map<Oid, CommitObject>, end: Oid, m: nat)
    requires |ids| > 0 && rest == ids[1..] && ids[0] != end && forall i :: 0 <= i < |ids| ==> ids[i] in objects
    requires forall i :: 0 <= i < |rest| ==> rest[i] in objects
    requires Run(Yields(rest) + tail, objects, end, |rest| + m) == Found(Records(rest, objects)) + Nones(m)
    requires Collect(Yields(rest) + tail, objects, end) == Records(rest, objects)
    ensures Run(Yields(ids) + tail, objects, end, |ids| + m) == Found(Records(ids, objects)) + Nones(m)
    ensures Collect(Yields(ids) + tail, objects, end) == Records(ids, objects)
  {
    assert |rest| + m + 1 == |ids| + m;
    var first := Extract(ids[0], objects[ids[0]]);
    YieldsCons(ids, tail);
    RunYield(ids[0], Yields(rest) + tail, objects, end, |rest| + m);
    RecordsCons(ids, objects);
    var found := Found(Records(rest, objects));
    assert [Some(first)] + (found + Nones(m)) == [Some(first)] + found + Nones(m);
  }

  /**
   * Without the end id in the walk (as with the all-zero sentinel), the
   * calls yield the whole walk and then `None` forever.
   */
  lemma {:induction false} WholeWalk(ids: seq<Oid>, objects: map<Oid, CommitObject>, end: Oid, m: nat)
    requires forall i :: 0 <= i < |ids| ==> ids[i] != end
    requires forall i :: 0 <= i < |ids| ==> ids[i] in objects
    ensures Run(Yields(ids), objects, end, |ids| + m) == Found(Records(ids, objects)) + Nones(m)
    ensures Collect(Yields(ids), objects, end) == Records(ids, objects)
  {
    if ids == [] {
      assert Yields(ids) == [];
      StaysExhausted(objects, end, m);
      assert Found(Records(ids, objects)) == [];
    } else {
      var rest := ids[1..];
      assert Yields(ids) + [] == Yields(ids) && Yields(rest) + [] == Yields(rest);
      WholeWalk(rest, objects, end, m);
      BoundaryStep(ids, rest, [], objects, end, m);
    }
  }

  /**
   * A walk error or an id that does not resolve ends what is collected,
   * without truncating the cursor: the pulls after it are still there.
   */
  lemma {:induction false} FailureEndsCollect(ids: seq<Oid>, bad: Pull, tail: seq<Pull>, objects: map<Oid, CommitObject>, end: Oid)
    requires bad.Fail? || bad.id !in objects
    requires forall i :: 0 <= i < |ids| ==> ids[i] != end
    requires forall i :: 0 <= i < |ids| ==> ids[i] in objects
    ensures Collect(Yields(ids) + [bad] + tail, objects, end) == Records(ids, objects)
    ensures Step([bad] + tail, objects, end) == (None, tail)
  {
    assert ([bad] + tail)[1..] == tail;
    if ids == [] {
      assert Yields(ids) + [bad] + tail == [bad] + tail;
    } else {
      var rest := ids[1..];
      YieldsCons(ids, [bad] + tail);
      assert Yields(ids) + [bad] + tail == Yields(ids) + ([bad] + tail);
      assert Yields(rest) + [bad] + tail == Yields(rest) + ([bad] + tail);
      RunYield(ids[0], Yields(rest) + ([bad] + tail), objects, end, 0);
      FailureEndsCollect(rest, bad, tail, objects, end);
      RecordsCons(ids, objects);
    }
  }

  /** Every collected record carries the full forty-digit id of its commit as its hash. */
  lemma {:induction false} CollectedHashes(cursor: seq<Pull>, objects: map<Oid, CommitObject>, end: Oid)
    ensures forall c :: c in Collect(cursor, objects, end) ==> |c.hash| == 40 && OidFromStr(c.hash) == Ok(c.hash)
    decreases |cursor|
  {
    var (x, rest) := Step(cursor, objects, end);
    if x.Some? {
      CollectedHashes(rest, objects, end);
      OidFromOwnText(x.value.hash);
    }
  }

  // ---------------------------------------------------------------------
  // The iterator object
  // ---------------------------------------------------------------------

  /** `Commits`: a repository, a revision-walk cursor, and the inclusive end boundary. */
  class Commits {
    const repo: Repository
    var inner: seq<Pull>
    var end: Oid

    constructor (repo: Repository, inner: seq<Pull>, end: Oid)
      ensures this.repo == repo && this.inner == inner && this.end == end
    {
      this.repo := repo;
      this.inner := inner;
      this.end := end;
    }

    /**
     * `start`: reset the walk and seed it solely with the given commit. The
     * hash must be valid and the commit must exist.
     */
    method Start(hash: string)
      requires IsHexId(hash)
      requires OidFromStr(hash).value in repo.walks
      modifies this
      ensures inner == repo.walks[OidFromStr(hash).value]
      ensures end == old(end)
    {
      inner := repo.walks[OidFromStr(hash).value];
    }

    /** `end`: set the inclusive stop id; the cursor is left as it is. */
    method End(hash: string)
      requires IsHexId(hash)
      modifies this
      ensures end == OidFromStr(hash).value
      ensures inner == old(inner)
    {
      end := OidFromStr(hash).value;
    }

    /** `next`: one step of the walk, as `Step` describes it. */
    method Next() returns (r: Option<Commit>)
      modifies this
      ensures r == Step(old(inner), repo.objects, end).0
      ensures inner == Step(old(inner), repo.objects, end).1
      ensures end == old(end)
    {
      if inner == [] {
        return None;
      }
      var pull := inner[0];
      inner := inner[1..];
      if pull.Fail? || pull.id !in repo.objects {
        return None;
      }
      r := Some(Extract(pull.id, repo.objects[pull.id]));
      if pull.id == end {
        inner := [];
      }
    }
  }

  /**
   * `Repository::commits`: resolve the remote-tracking reference of the
   * branch and start a walk at its target, with the all-zero id as `end`.
   */
  method OpenCommits(repo: Repository, branch: string) returns (r: Result<Commits, GitError>)
    ensures RefName(branch) !in repo.refs ==> r == Err(ReferenceNotFound(RefName(branch)))
    ensures RefName(branch) in repo.refs && repo.refs[RefName(branch)] !in repo.walks
      ==> r == Err(NotACommit(repo.refs[RefName(branch)]))
    ensures r.Ok? <==> RefName(branch) in repo.refs && repo.refs[RefName(branch)] in repo.walks
    ensures r.Ok? ==> fresh(r.value) && r.value.repo == repo && r.value.end == Zero
    ensures r.Ok? ==> r.value.inner == repo.walks[repo.refs[RefName(branch)]]
  {
    var name := RefName(branch);
    if name !in repo.refs {
      return Err(ReferenceNotFound(name));
    }
    var target := repo.refs[name];
    if target !in repo.walks {
      return Err(NotACommit(target));
    }
    ZeroFromStr();
    var end := OidFromStr("0").value;
    var commits := new Commits(repo, repo.walks[target], end);
    return Ok(commits);
  }
}
