/**
 The collaborative-filter job recommender: for a student of the interaction
 table, every other student's positive interactions vote for their jobs with
 weight `similarity * interactions`; jobs are ranked by total vote, highest
 first and stable on ties, and the first `top_n` are returned.

 Similarities are given, one per row of the table; how they are computed
 (cosine similarity of interaction rows) is not part of this model.
 */
module CollaborativeFilter {
  import opened Wrappers

  /** The student-by-job table: `cells[i][j]` counts the interactions of `students[i]` with `jobs[j]`. */
  datatype Interactions = Interactions(students: seq<string>, jobs: seq<string>, cells: seq<seq<int>>)

  predicate Distinct<T(==)>(s: seq<T>) {
    forall i, j :: 0 <= i < j < |s| ==> s[i] != s[j]
  }

  /** A table with one row per student, one column per job, and unique row and column labels. */
  predicate WellFormed(m: Interactions) {
    && |m.cells| == |m.students|
    && (forall i :: 0 <= i < |m.cells| ==> |m.cells[i]| == |m.jobs|)
    && Distinct(m.students)
    && Distinct(m.jobs)
  }

  /** The table the service ships with; no student has interacted with `jobD`. */
  const Demo: Interactions := Interactions(
    ["student1", "student2", "student3"],
    ["jobA", "jobB", "jobC", "jobD"],
    [[1, 0, 1, 0],
     [1, 1, 0, 0],
     [0, 1, 1, 0]])

  /** One key/value pair of the `job_scores` dictionary. */
  datatype Entry = Entry(job: string, score: real)

  /** The reply: the error object for an unknown student, or the recommended job names. */
  datatype Response = StudentNotFound | Recommendations(jobs: seq<string>)

  /** An insertion-ordered dictionary from job to score, as Python's `dict`. */
  datatype Dict = Dict(order: seq<string>, values: map<string, real>)

  /** The key order lists every key exactly once. */
  predicate ValidDict(d: Dict) {
    Distinct(d.order) && d.values.Keys == set k | k in d.order
  }

  function IndexOf(s: seq<string>, x: string): (k: nat)
    requires x in s
    ensures k < |s| && s[k] == x
    ensures forall i :: 0 <= i < k ==> s[i] != x
  {
    if s[0] == x then 0 else 1 + IndexOf(s[1..], x)
  }

  /** `d.items()`: the entries in insertion order. */
  function Items(d: Dict): (r: seq<Entry>)
    requires ValidDict(d)
    ensures |r| == |d.order|
    ensures forall k :: 0 <= k < |r| ==> r[k] == Entry(d.order[k], d.values[d.order[k]])
  {
    seq(|d.order|, k requires 0 <= k < |d.order| => Entry(d.order[k], d.values[d.order[k]]))
  }

  /**
   `d[job] = d.get(job, 0) + delta`: an existing key keeps its place and a
   new key goes to the end of the order.
   */
  function Bump(d: Dict, job: string, delta: real): (r: Dict)
    requires ValidDict(d)
    ensures ValidDict(r)
    ensures job in d.values ==> r.order == d.order
    ensures job !in d.values ==> r.order == d.order + [job]
    ensures r.values == d.values[job := (if job in d.values then d.values[job] else 0.0) + delta]
  {
    if job in d.values then Dict(d.order, d.values[job := d.values[job] + delta])
    else Dict(d.order + [job], d.values[job := 0.0 + delta])
  }

  /** The vote `sim * interacted` of one positive cell. */
  function Weight(sim: real, count: int): real {
    sim * (count as real)
  }

  /**
   The inner loop for one other student with similarity `sim`: the first `n`
   columns with a positive count each add their vote to their job's score.
   */
  function AddRow(d: Dict, jobs: seq<string>, row: seq<int>, sim: real, n: nat): (r: Dict)
    requires n <= |jobs| == |row|
    requires ValidDict(d)
    ensures ValidDict(r)
    ensures forall k :: k in r.values ==> k in d.values || k in jobs
  {
    if n == 0 then d
    else
      var a := AddRow(d, jobs, row, sim, n - 1);
      if row[n - 1] > 0 then Bump(a, jobs[n - 1], Weight(sim, row[n - 1])) else a
  }

  /** The score `job` starts from: its current value, or 0 when absent. */
  function Prior(d: Dict, job: string): real {
    if job in d.values then d.values[job] else 0.0
  }

  /** `r` agrees with `d` on whether `job` is present and on its score. */
  predicate SameAt(d: Dict, r: Dict, job: string) {
    (job in r.values <==> job in d.values) && (job in d.values ==> r.values[job] == d.values[job])
  }

  /** Column `n - 1` changes at most its own job's score, and only when its count is positive. */
  lemma AddRowStep(d: Dict, jobs: seq<string>, row: seq<int>, sim: real, n: nat, j: nat)
    requires 0 < n <= |jobs| == |row| && j < |jobs|
    requires Distinct(jobs) && ValidDict(d)
    ensures var a := AddRow(d, jobs, row, sim, n - 1);
      var r := AddRow(d, jobs, row, sim, n);
      if j == n - 1 && row[j] > 0 then
        jobs[j] in r.values && r.values[jobs[j]] == Prior(a, jobs[j]) + Weight(sim, row[j])
      else
        SameAt(a, r, jobs[j])
  {
    if j < n - 1 {
      assert jobs[j] != jobs[n - 1];
    } else if j > n - 1 {
      assert jobs[n - 1] != jobs[j];
    }
  }

  /** After the first `n` columns, exactly the jobs with a positive count have gained their vote. */
  lemma {:induction false} AddRowValues(d: Dict, jobs: seq<string>, row: seq<int>, sim: real, n: nat, j: nat)
    requires n <= |jobs| == |row| && j < |jobs|
    requires Distinct(jobs) && ValidDict(d)
    ensures var r := AddRow(d, jobs, row, sim, n);
      if j < n && row[j] > 0 then
        jobs[j] in r.values && r.values[jobs[j]] == Prior(d, jobs[j]) + Weight(sim, row[j])
      else
        SameAt(d, r, jobs[j])
  {
    if n > 0 {
      AddRowValues(d, jobs, row, sim, n - 1, j);
      AddRowStep(d, jobs, row, sim, n, j);
    }
  }

  /** Student `i` votes for job `j`: it is not the queried student `self` and its count is positive. */
  predicate Contributes(m: Interactions, self: nat, i: nat, j: nat)
    requires WellFormed(m) && i < |m.students| && j < |m.jobs|
  {
    i != self && m.cells[i][j] > 0
  }

  /** Some student among the first `n` votes for job `j`. */
  predicate Scored(m: Interactions, self: nat, n: nat, j: nat)
    requires WellFormed(m) && n <= |m.students| && j < |m.jobs|
  {
    exists i :: 0 <= i < n && Contributes(m, self, i, j)
  }

  /** Reference score of job `j`: the sum of `sims[i] * cells[i][j]` over the voting students among the first `n`. */
  function Score(m: Interactions, sims: seq<real>, self: nat, n: nat, j: nat): real
    requires WellFormed(m) && |sims| == |m.students| && n <= |m.students| && j < |m.jobs|
  {
    if n == 0 then 0.0
    else Score(m, sims, self, n - 1, j)
         + (if Contributes(m, self, n - 1, j) then Weight(sims[n - 1], m.cells[n - 1][j]) else 0.0)
  }

  lemma {:induction false} ScoreUnscored(m: Interactions, sims: seq<real>, self: nat, n: nat, j: nat)
    requires WellFormed(m) && |sims| == |m.students| && n <= |m.students| && j < |m.jobs|
    requires !Scored(m, self, n, j)
    ensures Score(m, sims, self, n, j) == 0.0
  {
    if n > 0 {
      ScoreUnscored(m, sims, self, n - 1, j);
    }
  }

  /**
   The outer loop over the first `n` students, skipping the dropped row `self`.
   A job has an entry exactly when some other student voted for it, and the
   entry holds the reference score.
   */
  function Accumulate(m: Interactions, sims: seq<real>, self: nat, n: nat): (d: Dict)
    requires WellFormed(m) && |sims| == |m.students| && n <= |m.students|
    ensures ValidDict(d)
    ensures forall k :: k in d.values ==> k in m.jobs
    ensures forall j :: 0 <= j < |m.jobs| ==> (m.jobs[j] in d.values <==> Scored(m, self, n, j))
    ensures forall j :: 0 <= j < |m.jobs| && m.jobs[j] in d.values ==> d.values[m.jobs[j]] == Score(m, sims, self, n, j)
  {
    if n == 0 then Dict([], map[])
    else
      var a := Accumulate(m, sims, self, n - 1);
      var d := if n - 1 == self then a else AddRow(a, m.jobs, m.cells[n - 1], sims[n - 1], |m.jobs|);
      forall j | 0 <= j < |m.jobs|
        ensures m.jobs[j] in d.values <==> Scored(m, self, n, j)
        ensures m.jobs[j] in d.values ==> d.values[m.jobs[j]] == Score(m, sims, self, n, j)
      {
        AccumulateStep(m, sims, self, n, a, j);
      }
      d
  }

  /** Student `n - 1`'s row moves job `j` from its score over the first `n - 1` students to its score over `n`. */
  lemma AccumulateStep(m: Interactions, sims: seq<real>, self: nat, n: nat, a: Dict, j: nat)
    requires WellFormed(m) && |sims| == |m.students| && 0 < n <= |m.students| && j < |m.jobs|
    requires ValidDict(a)
    requires m.jobs[j] in a.values <==> Scored(m, self, n - 1, j)
    requires m.jobs[j] in a.values ==> a.values[m.jobs[j]] == Score(m, sims, self, n - 1, j)
    ensures var d := if n - 1 == self then a else AddRow(a, m.jobs, m.cells[n - 1], sims[n - 1], |m.jobs|);
      && (m.jobs[j] in d.values <==> Scored(m, self, n, j))
      && (m.jobs[j] in d.values ==> d.values[m.jobs[j]] == Score(m, sims, self, n, j))
  {
    if n - 1 != self { AddRowValues(a, m.jobs, m.cells[n - 1], sims[n - 1], |m.jobs|, j); }
    if Contributes(m, self, n - 1, j) {
      assert Scored(m, self, n, j);
      if !Scored(m, self, n - 1, j) { ScoreUnscored(m, sims, self, n - 1, j); }
    } else {
      if Scored(m, self, n, j) {
        var i :| 0 <= i < n && Contributes(m, self, i, j);
        assert Scored(m, self, n - 1, j);
      }
    }
  }

  /** The `job_scores` dictionary of `recommend_jobs` for the student in row `self`. */
  function ScoreTable(m: Interactions, sims: seq<real>, self: nat): (d: Dict)
    requires WellFormed(m) && |sims| == |m.students|
    ensures ValidDict(d)
  {
    Accumulate(m, sims, self, |m.students|)
  }

  /** Vote `(i, a)` is reached before vote `(k, b)` by the loops of `recommend_jobs`: rows first, then columns. */
  predicate VoteBefore(i: nat, a: nat, k: nat, b: nat) {
    i < k || (i == k && a < b)
  }

  /** The first student, in row order, among the first `n` that votes for job `j`. */
  function FirstVoter(m: Interactions, self: nat, n: nat, j: nat): (i: nat)
    requires WellFormed(m) && n <= |m.students| && j < |m.jobs| && Scored(m, self, n, j)
    ensures i < n && Contributes(m, self, i, j)
    ensures forall k :: 0 <= k < i ==> !Contributes(m, self, k, j)
  {
    if Scored(m, self, n - 1, j) then FirstVoter(m, self, n - 1, j) else n - 1
  }

  /** A job first voted for by student `n - 1`. */
  lemma FirstVoterNew(m: Interactions, self: nat, n: nat, j: nat)
    requires WellFormed(m) && 0 < n <= |m.students| && j < |m.jobs|
    requires Scored(m, self, n, j) && !Scored(m, self, n - 1, j)
    ensures Contributes(m, self, n - 1, j) && FirstVoter(m, self, n, j) == n - 1
  {
  }

  /** A job voted for before student `n - 1` keeps its first voter. */
  lemma FirstVoterOld(m: Interactions, self: nat, n: nat, j: nat)
    requires WellFormed(m) && 0 < n <= |m.students| && j < |m.jobs| && Scored(m, self, n - 1, j)
    ensures Scored(m, self, n, j) && FirstVoter(m, self, n, j) == FirstVoter(m, self, n - 1, j) < n - 1
  {
    var i :| 0 <= i < n - 1 && Contributes(m, self, i, j);
  }

  /** Student `n - 1` extends the voters among the first `n - 1` students. */
  lemma ScoredStep(m: Interactions, self: nat, n: nat, j: nat)
    requires WellFormed(m) && 0 < n <= |m.students| && j < |m.jobs|
    ensures Scored(m, self, n, j) <==> Scored(m, self, n - 1, j) || Contributes(m, self, n - 1, j)
  {
    if Scored(m, self, n, j) && !Contributes(m, self, n - 1, j) {
      var i :| 0 <= i < n && Contributes(m, self, i, j);
      assert i < n - 1;
    }
  }

  /**
   The jobs among the first `c` columns that student `i` is the first to vote
   for, in column order: the keys that student's row adds to `job_scores`.
   */
  function FirstVotes(m: Interactions, self: nat, i: nat, c: nat): seq<string>
    requires WellFormed(m) && i < |m.students| && c <= |m.jobs|
  {
    if c == 0 then []
    else
      FirstVotes(m, self, i, c - 1)
      + (if Contributes(m, self, i, c - 1) && !Scored(m, self, i, c - 1) then [m.jobs[c - 1]] else [])
  }

  /** The keys of `job_scores` after the first `n` students, in the order the loops first vote for them. */
  function VoteOrder(m: Interactions, self: nat, n: nat): seq<string>
    requires WellFormed(m) && n <= |m.students|
  {
    if n == 0 then [] else VoteOrder(m, self, n - 1) + FirstVotes(m, self, n - 1, |m.jobs|)
  }

  /** A row adds exactly the jobs of its columns that it is the first to vote for. */
  lemma {:induction false} FirstVotesMember(m: Interactions, self: nat, i: nat, c: nat, j: nat)
    requires WellFormed(m) && i < |m.students| && c <= |m.jobs| && j < |m.jobs|
    ensures m.jobs[j] in FirstVotes(m, self, i, c)
      <==> j < c && Contributes(m, self, i, j) && !Scored(m, self, i, j)
  {
    if c > 0 {
      FirstVotesMember(m, self, i, c - 1, j);
      if j != c - 1 {
        assert m.jobs[j] != m.jobs[c - 1];
      }
    }
  }

  /** The order holds exactly the jobs some student among the first `n` votes for. */
  lemma {:induction false} VoteOrderMember(m: Interactions, self: nat, n: nat, j: nat)
    requires WellFormed(m) && n <= |m.students| && j < |m.jobs|
    ensures m.jobs[j] in VoteOrder(m, self, n) <==> Scored(m, self, n, j)
  {
    if n > 0 {
      assert VoteOrder(m, self, n) == VoteOrder(m, self, n - 1) + FirstVotes(m, self, n - 1, |m.jobs|);
      VoteOrderMember(m, self, n - 1, j);
      FirstVotesMember(m, self, n - 1, |m.jobs|, j);
      ScoredStep(m, self, n, j);
    }
  }

  /** A job of an earlier column is added by the first `c - 1` columns or not at all; column `c - 1`'s job is not. */
  lemma FirstVotesEarlier(m: Interactions, self: nat, i: nat, c: nat, a: nat)
    requires WellFormed(m) && i < |m.students| && a < c <= |m.jobs|
    ensures a < c - 1 ==> (m.jobs[a] in FirstVotes(m, self, i, c - 1) <==> m.jobs[a] in FirstVotes(m, self, i, c))
    ensures m.jobs[c - 1] !in FirstVotes(m, self, i, c - 1)
  {
    FirstVotesMember(m, self, i, c, a);
    FirstVotesMember(m, self, i, c - 1, a);
    FirstVotesMember(m, self, i, c - 1, c - 1);
  }

  /** Of two jobs a row adds, the one in the lower column comes first. */
  lemma {:induction false} FirstVotesOrder(m: Interactions, self: nat, i: nat, c: nat, a: nat, b: nat)
    requires WellFormed(m) && i < |m.students| && a < b < c <= |m.jobs|
    requires m.jobs[a] in FirstVotes(m, self, i, c) && m.jobs[b] in FirstVotes(m, self, i, c)
    ensures IndexOf(FirstVotes(m, self, i, c), m.jobs[a]) < IndexOf(FirstVotes(m, self, i, c), m.jobs[b])
  {
    var init := FirstVotes(m, self, i, c - 1);
    var r := FirstVotes(m, self, i, c);
    assert init <= r;
    FirstVotesEarlier(m, self, i, c, a);
    FirstVotesEarlier(m, self, i, c, b);
    IndexOfPrefix(init, r, m.jobs[a]);
    if b < c - 1 {
      FirstVotesOrder(m, self, i, c - 1, a, b);
      IndexOfPrefix(init, r, m.jobs[b]);
    } else {
      IndexOfPastPrefix(init, r, m.jobs[b]);
    }
  }

  /** A key keeps its position when the order only grows at the end. */
  lemma IndexOfPrefix(s: seq<string>, t: seq<string>, x: string)
    requires s <= t && x in s
    ensures x in t && IndexOf(t, x) == IndexOf(s, x)
  {
  }

  /** A key missing from a prefix sits after it. */
  lemma IndexOfPastPrefix(s: seq<string>, t: seq<string>, x: string)
    requires s <= t && x in t && x !in s
    ensures IndexOf(t, x) >= |s|
  {
  }

  /** A key appended after a prefix sits at its place in the appended part. */
  lemma IndexOfAppended(s: seq<string>, t: seq<string>, x: string)
    requires x !in s && x in t
    ensures x in s + t && IndexOf(s + t, x) == |s| + IndexOf(t, x)
  {
    var k := IndexOf(t, x);
    assert (s + t)[|s| + k] == x;
    assert forall i :: 0 <= i < |s| ==> (s + t)[i] == s[i];
    assert forall i :: |s| <= i < |s| + k ==> (s + t)[i] == t[i - |s|];
  }

  /** Two keys appended after a prefix keep their relative order. */
  lemma IndexOfAppendedOrder(s: seq<string>, t: seq<string>, x: string, y: string)
    requires x !in s && y !in s && x in t && y in t && IndexOf(t, x) < IndexOf(t, y)
    ensures x in s + t && y in s + t && IndexOf(s + t, x) < IndexOf(s + t, y)
  {
    IndexOfAppended(s, t, x);
    IndexOfAppended(s, t, y);
  }

  /** Two jobs already voted for before student `n - 1` keep their order when the row appends keys. */
  lemma OrderOfOldJobs(m: Interactions, self: nat, n: nat, prev: seq<string>, o: seq<string>, a: nat, b: nat)
    requires WellFormed(m) && 0 < n <= |m.students| && a < |m.jobs| && b < |m.jobs|
    requires Scored(m, self, n - 1, a) && Scored(m, self, n - 1, b)
    requires prev <= o && m.jobs[a] in prev && m.jobs[b] in prev
    requires IndexOf(prev, m.jobs[a]) < IndexOf(prev, m.jobs[b])
      <==> VoteBefore(FirstVoter(m, self, n - 1, a), a, FirstVoter(m, self, n - 1, b), b)
    ensures m.jobs[a] in o && m.jobs[b] in o
    ensures IndexOf(o, m.jobs[a]) < IndexOf(o, m.jobs[b])
      <==> VoteBefore(FirstVoter(m, self, n, a), a, FirstVoter(m, self, n, b), b)
  {
    FirstVoterOld(m, self, n, a);
    FirstVoterOld(m, self, n, b);
    IndexOfPrefix(prev, o, m.jobs[a]);
    IndexOfPrefix(prev, o, m.jobs[b]);
  }

  /** A job voted for before student `n - 1` precedes one that student `n - 1` votes for first. */
  lemma OrderOfOldAndNewJob(m: Interactions, self: nat, n: nat, prev: seq<string>, o: seq<string>, a: nat, b: nat)
    requires WellFormed(m) && 0 < n <= |m.students| && a < |m.jobs| && b < |m.jobs|
    requires Scored(m, self, n - 1, a) && Scored(m, self, n, b) && !Scored(m, self, n - 1, b)
    requires prev <= o && m.jobs[a] in prev && m.jobs[b] in o && m.jobs[b] !in prev
    ensures m.jobs[a] in o
    ensures IndexOf(o, m.jobs[a]) < IndexOf(o, m.jobs[b])
    ensures VoteBefore(FirstVoter(m, self, n, a), a, FirstVoter(m, self, n, b), b)
    ensures !VoteBefore(FirstVoter(m, self, n, b), b, FirstVoter(m, self, n, a), a)
  {
    FirstVoterOld(m, self, n, a);
    FirstVoterNew(m, self, n, b);
    IndexOfPrefix(prev, o, m.jobs[a]);
    IndexOfPastPrefix(prev, o, m.jobs[b]);
  }

  /** A job first voted for by student `n - 1` is missing from the earlier order and added by that row. */
  lemma NewJobMember(m: Interactions, self: nat, n: nat, a: nat)
    requires WellFormed(m) && 0 < n <= |m.students| && a < |m.jobs|
    requires Contributes(m, self, n - 1, a) && !Scored(m, self, n - 1, a)
    ensures m.jobs[a] !in VoteOrder(m, self, n - 1) && m.jobs[a] in FirstVotes(m, self, n - 1, |m.jobs|)
  {
    VoteOrderMember(m, self, n - 1, a);
    FirstVotesMember(m, self, n - 1, |m.jobs|, a);
  }

  /** Two jobs first voted for by student `n - 1` are ordered by column. */
  lemma OrderOfNewJobs(m: Interactions, self: nat, n: nat, a: nat, b: nat)
    requires WellFormed(m) && 0 < n <= |m.students| && a < b < |m.jobs|
    requires Contributes(m, self, n - 1, a) && !Scored(m, self, n - 1, a)
    requires Contributes(m, self, n - 1, b) && !Scored(m, self, n - 1, b)
    ensures var o := VoteOrder(m, self, n);
      m.jobs[a] in o && m.jobs[b] in o && IndexOf(o, m.jobs[a]) < IndexOf(o, m.jobs[b])
  {
    var prev := VoteOrder(m, self, n - 1);
    var added := FirstVotes(m, self, n - 1, |m.jobs|);
    NewJobMember(m, self, n, a);
    NewJobMember(m, self, n, b);
    FirstVotesOrder(m, self, n - 1, |m.jobs|, a, b);
    assert VoteOrder(m, self, n) == prev + added;
    IndexOfAppendedOrder(prev, added, m.jobs[a], m.jobs[b]);
  }

  /** After `n` students the order lists jobs `a` and `b` as their first votes are reached. */
  predicate FirstVoteOrdered(m: Interactions, self: nat, n: nat, a: nat, b: nat)
    requires WellFormed(m) && n <= |m.students| && a < |m.jobs| && b < |m.jobs|
    requires Scored(m, self, n, a) && Scored(m, self, n, b)
  {
    var o := VoteOrder(m, self, n);
    && m.jobs[a] in o && m.jobs[b] in o
    && (IndexOf(o, m.jobs[a]) < IndexOf(o, m.jobs[b])
        <==> VoteBefore(FirstVoter(m, self, n, a), a, FirstVoter(m, self, n, b), b))
  }

  /** Student `n - 1`'s row keeps the order of two jobs voted for earlier. */
  lemma OldJobsStep(m: Interactions, self: nat, n: nat, a: nat, b: nat)
    requires WellFormed(m) && 0 < n <= |m.students| && a < |m.jobs| && b < |m.jobs|
    requires Scored(m, self, n - 1, a) && Scored(m, self, n - 1, b)
    requires Scored(m, self, n, a) && Scored(m, self, n, b)
    requires FirstVoteOrdered(m, self, n - 1, a, b)
    ensures FirstVoteOrdered(m, self, n, a, b)
  {
    var prev := VoteOrder(m, self, n - 1);
    assert VoteOrder(m, self, n) == prev + FirstVotes(m, self, n - 1, |m.jobs|);
    OrderOfOldJobs(m, self, n, prev, VoteOrder(m, self, n), a, b);
  }

  /** A job voted for before student `n - 1` precedes, both ways round, one that student votes for first. */
  lemma OldAndNewStep(m: Interactions, self: nat, n: nat, a: nat, b: nat)
    requires WellFormed(m) && 0 < n <= |m.students| && a < |m.jobs| && b < |m.jobs|
    requires Scored(m, self, n - 1, a) && !Scored(m, self, n - 1, b)
    requires Scored(m, self, n, a) && Scored(m, self, n, b)
    ensures FirstVoteOrdered(m, self, n, a, b) && FirstVoteOrdered(m, self, n, b, a)
  {
    var prev := VoteOrder(m, self, n - 1);
    assert VoteOrder(m, self, n) == prev + FirstVotes(m, self, n - 1, |m.jobs|);
    VoteOrderMember(m, self, n - 1, a);
    VoteOrderMember(m, self, n - 1, b);
    VoteOrderMember(m, self, n, b);
    OrderOfOldAndNewJob(m, self, n, prev, VoteOrder(m, self, n), a, b);
  }

  /** Two jobs both first voted for by student `n - 1`. */
  lemma NewJobsStep(m: Interactions, self: nat, n: nat, a: nat, b: nat)
    requires WellFormed(m) && 0 < n <= |m.students| && a < |m.jobs| && b < |m.jobs|
    requires !Scored(m, self, n - 1, a) && !Scored(m, self, n - 1, b)
    requires Scored(m, self, n, a) && Scored(m, self, n, b)
    ensures FirstVoteOrdered(m, self, n, a, b)
  {
    FirstVoterNew(m, self, n, a);
    FirstVoterNew(m, self, n, b);
    if a < b {
      OrderOfNewJobs(m, self, n, a, b);
    } else if b < a {
      OrderOfNewJobs(m, self, n, b, a);
    } else {
      VoteOrderMember(m, self, n, a);
    }
  }

  /**
   The order of first votes: after `n` students, job `a` precedes job `b`
   exactly when the first vote for `a` is reached before the first vote
   for `b`.
   */
  lemma {:induction false} VoteOrderFirstVotes(m: Interactions, self: nat, n: nat, a: nat, b: nat)
    requires WellFormed(m) && n <= |m.students|
    requires a < |m.jobs| && b < |m.jobs| && Scored(m, self, n, a) && Scored(m, self, n, b)
    ensures FirstVoteOrdered(m, self, n, a, b)
  {
    var i :| 0 <= i < n && Contributes(m, self, i, a);
    if Scored(m, self, n - 1, a) && Scored(m, self, n - 1, b) {
      VoteOrderFirstVotes(m, self, n - 1, a, b);
      OldJobsStep(m, self, n, a, b);
    } else if Scored(m, self, n - 1, a) {
      OldAndNewStep(m, self, n, a, b);
    } else if Scored(m, self, n - 1, b) {
      OldAndNewStep(m, self, n, b, a);
    } else {
      NewJobsStep(m, self, n, a, b);
    }
  }

  /** The job of column `c - 1` when that column adds it to `d` as a new key. */
  function NewColumn(d: Dict, jobs: seq<string>, row: seq<int>, c: nat): seq<string>
    requires 0 < c <= |jobs| == |row|
  {
    if row[c - 1] > 0 && jobs[c - 1] !in d.values then [jobs[c - 1]] else []
  }

  /** The jobs of the first `c` columns that a row adds to `d`, in column order. */
  function NewColumns(d: Dict, jobs: seq<string>, row: seq<int>, c: nat): seq<string>
    requires c <= |jobs| == |row|
  {
    if c == 0 then [] else NewColumns(d, jobs, row, c - 1) + NewColumn(d, jobs, row, c)
  }

  /** Column `c - 1` appends its job exactly when the job is new to `d`. */
  lemma AddRowOrderStep(d: Dict, jobs: seq<string>, row: seq<int>, sim: real, c: nat)
    requires 0 < c <= |jobs| == |row| && Distinct(jobs) && ValidDict(d)
    ensures AddRow(d, jobs, row, sim, c).order == AddRow(d, jobs, row, sim, c - 1).order + NewColumn(d, jobs, row, c)
  {
    var a := AddRow(d, jobs, row, sim, c - 1);
    AddRowValues(d, jobs, row, sim, c - 1, c - 1);
    assert jobs[c - 1] in a.values <==> jobs[c - 1] in d.values;
    BumpOrder(d, jobs, row, sim, c);
    if row[c - 1] > 0 && jobs[c - 1] !in d.values {
      assert NewColumn(d, jobs, row, c) == [jobs[c - 1]];
    } else {
      assert NewColumn(d, jobs, row, c) == [];
      AppendEmpty(a.order);
    }
  }

  /** Column `c - 1` appends its job to the order exactly when it votes for a job not yet present. */
  lemma BumpOrder(d: Dict, jobs: seq<string>, row: seq<int>, sim: real, c: nat)
    requires 0 < c <= |jobs| == |row| && ValidDict(d)
    ensures var a := AddRow(d, jobs, row, sim, c - 1);
      AddRow(d, jobs, row, sim, c).order
      == if row[c - 1] > 0 && jobs[c - 1] !in a.values then a.order + [jobs[c - 1]] else a.order
  {
  }

  /** One row's votes append the jobs new to the dictionary, in column order. */
  lemma {:induction false} AddRowOrder(d: Dict, jobs: seq<string>, row: seq<int>, sim: real, c: nat)
    requires c <= |jobs| == |row| && Distinct(jobs) && ValidDict(d)
    ensures AddRow(d, jobs, row, sim, c).order == d.order + NewColumns(d, jobs, row, c)
  {
    if c > 0 {
      AddRowOrder(d, jobs, row, sim, c - 1);
      AddRowOrderStep(d, jobs, row, sim, c);
      AppendAssoc(d.order, NewColumns(d, jobs, row, c - 1), NewColumn(d, jobs, row, c));
    }
  }

  /** Appending nothing leaves a sequence unchanged. */
  lemma AppendEmpty(s: seq<string>)
    ensures s + [] == s
  {
  }

  /** Sequence concatenation is associative. */
  lemma AppendAssoc(s: seq<string>, t: seq<string>, u: seq<string>)
    ensures (s + t) + u == s + (t + u)
  {
  }

  /** The jobs a row adds are the ones its student is the first to vote for. */
  lemma {:induction false} NewColumnsFirstVotes(m: Interactions, self: nat, n: nat, d: Dict, c: nat)
    requires WellFormed(m) && 0 < n <= |m.students| && c <= |m.jobs|
    requires forall j :: 0 <= j < |m.jobs| ==> (m.jobs[j] in d.values <==> Scored(m, self, n - 1, j))
    ensures n - 1 != self ==> NewColumns(d, m.jobs, m.cells[n - 1], c) == FirstVotes(m, self, n - 1, c)
    ensures n - 1 == self ==> FirstVotes(m, self, n - 1, c) == []
  {
    if c > 0 {
      NewColumnsFirstVotes(m, self, n, d, c - 1);
    }
  }

  /** The dictionary's key order is the order of first votes. */
  lemma {:induction false} AccumulateVoteOrder(m: Interactions, sims: seq<real>, self: nat, n: nat)
    requires WellFormed(m) && |sims| == |m.students| && n <= |m.students|
    ensures Accumulate(m, sims, self, n).order == VoteOrder(m, self, n)
  {
    if n > 0 {
      AccumulateVoteOrder(m, sims, self, n - 1);
      AccumulateOrderStep(m, sims, self, n);
    }
  }

  /** Student `n - 1`'s row appends the jobs it is the first to vote for. */
  lemma AccumulateOrderStep(m: Interactions, sims: seq<real>, self: nat, n: nat)
    requires WellFormed(m) && |sims| == |m.students| && 0 < n <= |m.students|
    ensures Accumulate(m, sims, self, n).order == Accumulate(m, sims, self, n - 1).order + FirstVotes(m, self, n - 1, |m.jobs|)
  {
    var prev := Accumulate(m, sims, self, n - 1);
    NewColumnsFirstVotes(m, self, n, prev, |m.jobs|);
    if n - 1 != self {
      AddRowOrder(prev, m.jobs, m.cells[n - 1], sims[n - 1], |m.jobs|);
    } else {
      AppendEmpty(prev.order);
    }
  }

  /**
   Python's dict keeps insertion order, so `job_scores` lists job `a` before
   job `b` exactly when the loops reach the first vote for `a` before the
   first vote for `b`: an earlier voting student, or the same student and an
   earlier column.
   */
  lemma ScoreTableOrder(m: Interactions, sims: seq<real>, self: nat, a: nat, b: nat)
    requires WellFormed(m) && |sims| == |m.students|
    requires a < |m.jobs| && b < |m.jobs|
    requires Scored(m, self, |m.students|, a) && Scored(m, self, |m.students|, b)
    ensures var o := ScoreTable(m, sims, self).order;
      && m.jobs[a] in o && m.jobs[b] in o
      && (IndexOf(o, m.jobs[a]) < IndexOf(o, m.jobs[b])
          <==> VoteBefore(FirstVoter(m, self, |m.students|, a), a, FirstVoter(m, self, |m.students|, b), b))
  {
    AccumulateVoteOrder(m, sims, self, |m.students|);
    VoteOrderFirstVotes(m, self, |m.students|, a, b);
  }

  /** Scores never increase along `s`. */
  predicate SortedDesc(s: seq<Entry>) {
    forall i, j :: 0 <= i < j < |s| ==> s[i].score >= s[j].score
  }

  /** No entry of `s` scores above `v`. */
  predicate AllAtMost(v: real, s: seq<Entry>) {
    forall k :: 0 <= k < |s| ==> s[k].score <= v
  }

  lemma SortedDescCons(x: Entry, s: seq<Entry>)
    requires SortedDesc(s) && AllAtMost(x.score, s)
    ensures SortedDesc([x] + s)
  {
    var t := [x] + s;
    forall i, j | 0 <= i < j < |t| ensures t[i].score >= t[j].score {
      if i > 0 { assert t[i] == s[i - 1] && t[j] == s[j - 1]; }
    }
  }

  lemma AllAtMostMultiset(v: real, s: seq<Entry>, r: seq<Entry>, x: Entry)
    requires AllAtMost(v, s) && x.score <= v
    requires multiset(r) == multiset(s) + multiset{x}
    ensures AllAtMost(v, r)
  {
    forall k | 0 <= k < |r| ensures r[k].score <= v {
      assert r[k] in multiset(r);
      if r[k] != x {
        assert r[k] in multiset(s);
      }
    }
  }

  /** The entries of `s` whose score is `v`, in their order in `s`. */
  function WithScore(s: seq<Entry>, v: real): seq<Entry> {
    if s == [] then []
    else (if s[0].score == v then [s[0]] else []) + WithScore(s[1..], v)
  }

  lemma WithScoreCons(x: Entry, s: seq<Entry>, v: real)
    ensures WithScore([x] + s, v) == (if x.score == v then [x] else []) + WithScore(s, v)
  {
    assert ([x] + s)[1..] == s;
  }

  /** Inserts `x` before the first entry whose score is not greater, so it precedes equal scores. */
  function InsertDesc(x: Entry, s: seq<Entry>): (r: seq<Entry>)
    requires SortedDesc(s)
    ensures SortedDesc(r)
    ensures multiset(r) == multiset(s) + multiset{x}
  {
    if s == [] || x.score >= s[0].score then
      SortedDescCons(x, s);
      [x] + s
    else
      var rest := InsertDesc(x, s[1..]);
      assert s == [s[0]] + s[1..];
      AllAtMostMultiset(s[0].score, s[1..], rest, x);
      SortedDescCons(s[0], rest);
      [s[0]] + rest
  }

  /** Moving `h` ahead of an entry `x` of a different score leaves every score class as it was. */
  lemma WithScoreSwap(x: Entry, h: Entry, t: seq<Entry>, rest: seq<Entry>, v: real)
    requires x.score != h.score
    requires WithScore(rest, v) == WithScore([x] + t, v)
    ensures WithScore([h] + rest, v) == WithScore([x] + ([h] + t), v)
  {
    WithScoreCons(h, rest, v);
    WithScoreCons(x, t, v);
    WithScoreCons(x, [h] + t, v);
    WithScoreCons(h, t, v);
  }

  /** Inserting `x` keeps it ahead of every entry of equal score: each score class reads as in `[x] + s`. */
  lemma {:induction false} InsertDescStable(x: Entry, s: seq<Entry>, v: real)
    requires SortedDesc(s)
    ensures WithScore(InsertDesc(x, s), v) == WithScore([x] + s, v)
  {
    if s != [] && x.score < s[0].score {
      var t := s[1..];
      var rest := InsertDesc(x, t);
      assert s == [s[0]] + t;
      assert InsertDesc(x, s) == [s[0]] + rest;
      InsertDescStable(x, t, v);
      WithScoreSwap(x, s[0], t, rest, v);
    }
  }

  /**
   `sorted(d.items(), key=score, reverse=True)`: highest score first, and
   entries with equal scores keep their relative order from `d`.
   */
  function SortDesc(d: seq<Entry>): (r: seq<Entry>)
    ensures SortedDesc(r)
    ensures multiset(r) == multiset(d)
  {
    if d == [] then []
    else
      assert d == [d[0]] + d[1..];
      InsertDesc(d[0], SortDesc(d[1..]))
  }

  /** The sort is stable: the entries of each score appear in the order they have in `d`. */
  lemma {:induction false} SortDescStable(d: seq<Entry>, v: real)
    ensures WithScore(SortDesc(d), v) == WithScore(d, v)
  {
    if d != [] {
      var rest := SortDesc(d[1..]);
      SortDescStable(d[1..], v);
      InsertDescStable(d[0], rest, v);
      WithScoreCons(d[0], rest, v);
      WithScoreCons(d[0], d[1..], v);
      assert d == [d[0]] + d[1..];
    }
  }

  /** Python's `s[:n]`; a negative `n` counts from the end, and bounds are clamped. */
  function SliceTo<T>(s: seq<T>, n: int): (r: seq<T>)
    ensures |r| == if n >= 0 then (if n < |s| then n else |s|) else (if |s| + n > 0 then |s| + n else 0)
    ensures r == s[..|r|]
  {
    if n >= 0 then (if n < |s| then s[..n] else s)
    else if |s| + n > 0 then s[..|s| + n]
    else []
  }

  /** The job names of a list of entries, in order. */
  function Names(s: seq<Entry>): (r: seq<string>)
    ensures |r| == |s|
    ensures forall k :: 0 <= k < |s| ==> r[k] == s[k].job
  {
    seq(|s|, k requires 0 <= k < |s| => s[k].job)
  }

  /** The ranked `job_scores` items for the student in row `self`, before truncation. */
  function Ranking(m: Interactions, sims: seq<real>, self: nat): seq<Entry>
    requires WellFormed(m) && |sims| == |m.students|
  {
    SortDesc(Items(ScoreTable(m, sims, self)))
  }

  /** `recommend_jobs(student_id, top_n)` with the given per-row similarities. */
  function Recommend(m: Interactions, sims: seq<real>, studentId: string, topN: int): (r: Response)
    requires WellFormed(m) && |sims| == |m.students|
    ensures r.StudentNotFound? <==> studentId !in m.students
  {
    if studentId !in m.students then StudentNotFound
    else Recommendations(Names(SliceTo(Ranking(m, sims, IndexOf(m.students, studentId)), topN)))
  }

  /** The jobs that some student other than `self` has a positive interaction with. */
  function ScoredJobs(m: Interactions, self: nat): set<string>
    requires WellFormed(m)
  {
    set j | 0 <= j < |m.jobs| && Scored(m, self, |m.students|, j) :: m.jobs[j]
  }

  /** The reference score of a named job for the student in row `self`. */
  function JobScore(m: Interactions, sims: seq<real>, self: nat, job: string): real
    requires WellFormed(m) && |sims| == |m.students| && job in m.jobs
  {
    Score(m, sims, self, |m.students|, IndexOf(m.jobs, job))
  }

  lemma IndexOfDistinct(s: seq<string>, k: nat)
    requires Distinct(s) && k < |s|
    ensures IndexOf(s, s[k]) == k
  {
  }

  lemma {:induction false} DistinctCard(s: seq<string>)
    requires Distinct(s)
    ensures |set x | x in s| == |s|
  {
    if s != [] {
      var t := s[1..];
      assert Distinct(t);
      DistinctCard(t);
      assert (set x | x in s) == (set x | x in t) + {s[0]};
      assert s[0] !in t;
    }
  }

  /** Every entry of `r` is an entry of `s` when their multisets agree. */
  lemma MultisetMember(r: seq<Entry>, s: seq<Entry>, k: nat)
    requires multiset(r) == multiset(s) && k < |r|
    ensures r[k] in s
  {
    assert r[k] in multiset(r);
  }

  /** A job named in the result of `InsertDesc` is `x`'s or one named in `s`. */
  lemma InsertDescNames(x: Entry, s: seq<Entry>, k: nat)
    requires SortedDesc(s) && k < |InsertDesc(x, s)|
    ensures InsertDesc(x, s)[k].job == x.job || InsertDesc(x, s)[k].job in Names(s)
  {
    var r := InsertDesc(x, s);
    assert r[k] in multiset(r);
    if r[k] != x {
      assert r[k] in multiset(s);
      var p :| 0 <= p < |s| && s[p] == r[k];
      assert Names(s)[p] == r[k].job;
    }
  }

  lemma {:induction false} InsertDescDistinct(x: Entry, s: seq<Entry>)
    requires SortedDesc(s) && Distinct(Names(s)) && x.job !in Names(s)
    ensures Distinct(Names(InsertDesc(x, s)))
  {
    if s != [] && x.score < s[0].score {
      var t := s[1..];
      var ns := Names(s);
      assert Names(t) == ns[1..];
      assert ns[0] == s[0].job;
      assert s[0].job !in Names(t);
      InsertDescDistinct(x, t);
      var rest := InsertDesc(x, t);
      forall k | 0 <= k < |rest| ensures rest[k].job != s[0].job {
        InsertDescNames(x, t, k);
      }
      assert InsertDesc(x, s) == [s[0]] + rest;
      NamesCons(s[0], rest);
      DistinctCons(s[0].job, Names(rest));
    }
  }

  lemma NamesCons(x: Entry, s: seq<Entry>)
    ensures Names([x] + s) == [x.job] + Names(s)
  {
  }

  lemma DistinctCons(a: string, s: seq<string>)
    requires Distinct(s) && a !in s
    ensures Distinct([a] + s)
  {
    var t := [a] + s;
    forall i, j | 0 <= i < j < |t| ensures t[i] != t[j] {
      assert t[j] == s[j - 1];
      if i > 0 { assert t[i] == s[i - 1]; }
    }
  }

  lemma {:induction false} SortDescDistinct(d: seq<Entry>)
    requires Distinct(Names(d))
    ensures Distinct(Names(SortDesc(d)))
  {
    if d != [] {
      var t := d[1..];
      var nd := Names(d);
      assert Names(t) == nd[1..];
      assert nd[0] == d[0].job;
      assert d[0].job !in Names(t);
      SortDescDistinct(t);
      var rest := SortDesc(t);
      forall k | 0 <= k < |rest| ensures rest[k].job != d[0].job {
        MultisetMember(rest, t, k);
      }
      InsertDescDistinct(d[0], rest);
    }
  }

  /** Each entry of the score dictionary is a voted-for job carrying its reference score. */
  lemma ScoreTableEntry(m: Interactions, sims: seq<real>, self: nat, e: Entry)
    requires WellFormed(m) && |sims| == |m.students|
    requires e in Items(ScoreTable(m, sims, self))
    ensures e.job in ScoredJobs(m, self) && e.job in m.jobs
    ensures e.score == JobScore(m, sims, self, e.job)
  {
    var d := ScoreTable(m, sims, self);
    var items := Items(d);
    var i :| 0 <= i < |items| && items[i] == e;
    assert d.order[i] in d.values;
    var j := IndexOf(m.jobs, e.job);
    assert m.jobs[j] in d.values;
  }

  lemma RankingEntries(m: Interactions, sims: seq<real>, self: nat)
    requires WellFormed(m) && |sims| == |m.students|
    ensures var r := Ranking(m, sims, self);
      forall k :: 0 <= k < |r| ==>
        (r[k].job in ScoredJobs(m, self) && r[k].job in m.jobs && r[k].score == JobScore(m, sims, self, r[k].job))
  {
    var r := Ranking(m, sims, self);
    var items := Items(ScoreTable(m, sims, self));
    forall k | 0 <= k < |r|
      ensures r[k].job in ScoredJobs(m, self) && r[k].job in m.jobs && r[k].score == JobScore(m, sims, self, r[k].job)
    {
      MultisetMember(r, items, k);
      ScoreTableEntry(m, sims, self, r[k]);
    }
  }

  lemma RankingCovers(m: Interactions, sims: seq<real>, self: nat)
    requires WellFormed(m) && |sims| == |m.students|
    ensures forall job :: job in ScoredJobs(m, self) ==> job in Names(Ranking(m, sims, self))
  {
    var d := ScoreTable(m, sims, self);
    var items := Items(d);
    var r := Ranking(m, sims, self);
    forall job | job in ScoredJobs(m, self) ensures job in Names(r) {
      var j :| 0 <= j < |m.jobs| && Scored(m, self, |m.students|, j) && m.jobs[j] == job;
      assert job in d.order;
      var i :| 0 <= i < |d.order| && d.order[i] == job;
      MultisetMember(items, r, i);
      var k :| 0 <= k < |r| && r[k] == items[i];
      assert Names(r)[k] == job;
    }
  }

  lemma RankingSize(m: Interactions, sims: seq<real>, self: nat)
    requires WellFormed(m) && |sims| == |m.students|
    ensures |Ranking(m, sims, self)| == |ScoredJobs(m, self)|
  {
    var d := ScoreTable(m, sims, self);
    var items := Items(d);
    var r := Ranking(m, sims, self);
    assert ScoredJobs(m, self) == set x | x in d.order by {
      forall x | x in d.order ensures x in ScoredJobs(m, self) {
        var j := IndexOf(m.jobs, x);
      }
    }
    DistinctCard(d.order);
    assert |multiset(r)| == |multiset(items)|;
  }

  /**
   What the ranked list holds: each job some other student voted for, exactly
   once, with its reference score, in non-increasing score order, and with
   equal scores in the dictionary's insertion order.
   */
  lemma RankingContents(m: Interactions, sims: seq<real>, self: nat)
    requires WellFormed(m) && |sims| == |m.students|
    ensures var r := Ranking(m, sims, self);
      && SortedDesc(r)
      && Distinct(Names(r))
      && |r| == |ScoredJobs(m, self)|
      && (forall k :: 0 <= k < |r| ==>
            (r[k].job in ScoredJobs(m, self) && r[k].job in m.jobs && r[k].score == JobScore(m, sims, self, r[k].job)))
      && (forall job :: job in ScoredJobs(m, self) ==> job in Names(r))
      && (forall v :: WithScore(r, v) == WithScore(Items(ScoreTable(m, sims, self)), v))
  {
    var items := Items(ScoreTable(m, sims, self));
    assert Names(items) == ScoreTable(m, sims, self).order;
    SortDescDistinct(items);
    RankingEntries(m, sims, self);
    RankingCovers(m, sims, self);
    RankingSize(m, sims, self);
    forall v ensures WithScore(Ranking(m, sims, self), v) == WithScore(items, v) {
      SortDescStable(items, v);
    }
  }

  /** `WithScore(s, v)` splits into the head's contribution and the tail's. */
  lemma WithScoreSplit(s: seq<Entry>, v: real)
    requires s != []
    ensures WithScore(s, v) == (if s[0].score == v then [s[0]] else []) + WithScore(s[1..], v)
  {
  }

  /** An entry of score `v` at position `k` of `s` is at some position `p` of `WithScore(s, v)`. */
  lemma {:induction false} WithScoreIndex(s: seq<Entry>, v: real, k: nat) returns (p: nat)
    requires k < |s| && s[k].score == v
    ensures p < |WithScore(s, v)| && WithScore(s, v)[p] == s[k]
  {
    WithScoreSplit(s, v);
    var h := if s[0].score == v then [s[0]] else [];
    var w := WithScore(s[1..], v);
    if k == 0 {
      p := 0;
      assert (h + w)[0] == s[0];
    } else {
      var p' := WithScoreIndex(s[1..], v, k - 1);
      p := p' + |h|;
      assert (h + w)[p] == w[p'];
    }
  }

  /** The entry at position `p` of `WithScore(s, v)` is at some position `k` of `s`. */
  lemma {:induction false} WithScoreSource(s: seq<Entry>, v: real, p: nat) returns (k: nat)
    requires p < |WithScore(s, v)|
    ensures k < |s| && s[k] == WithScore(s, v)[p]
  {
    assert s != [];
    WithScoreSplit(s, v);
    var h := if s[0].score == v then [s[0]] else [];
    var w := WithScore(s[1..], v);
    if p < |h| {
      k := 0;
      assert (h + w)[p] == s[0];
    } else {
      var k' := WithScoreSource(s[1..], v, p - |h|);
      k := k' + 1;
      assert (h + w)[p] == w[p - |h|];
    }
  }

  /** Two entries of score `v` keep their relative order in `WithScore(s, v)`. */
  lemma {:induction false} WithScoreKeepsOrder(s: seq<Entry>, v: real, i: nat, j: nat) returns (i': nat, j': nat)
    requires i < j < |s| && s[i].score == v && s[j].score == v
    ensures i' < j' < |WithScore(s, v)| && WithScore(s, v)[i'] == s[i] && WithScore(s, v)[j'] == s[j]
  {
    WithScoreSplit(s, v);
    var h := if s[0].score == v then [s[0]] else [];
    var w := WithScore(s[1..], v);
    if i == 0 {
      var k := WithScoreIndex(s[1..], v, j - 1);
      i', j' := 0, k + 1;
      assert (h + w)[0] == s[0] && (h + w)[j'] == w[k];
    } else {
      var a, b := WithScoreKeepsOrder(s[1..], v, i - 1, j - 1);
      i', j' := a + |h|, b + |h|;
      assert (h + w)[i'] == w[a] && (h + w)[j'] == w[b];
    }
  }

  /** Two positions of `WithScore(s, v)` hold entries in the same order in `s`. */
  lemma {:induction false} WithScoreOrderBack(s: seq<Entry>, v: real, i: nat, j: nat) returns (i': nat, j': nat)
    requires i < j < |WithScore(s, v)|
    ensures i' < j' < |s| && s[i'] == WithScore(s, v)[i] && s[j'] == WithScore(s, v)[j]
  {
    assert s != [];
    WithScoreSplit(s, v);
    var h := if s[0].score == v then [s[0]] else [];
    var w := WithScore(s[1..], v);
    if i < |h| {
      var k := WithScoreSource(s[1..], v, j - |h|);
      i', j' := 0, k + 1;
      assert (h + w)[i] == s[0] && (h + w)[j] == w[j - |h|];
    } else {
      var a, b := WithScoreOrderBack(s[1..], v, i - |h|, j - |h|);
      i', j' := a + 1, b + 1;
      assert (h + w)[i] == w[i - |h|] && (h + w)[j] == w[j - |h|];
    }
  }

  /** The column of a ranked job, which some other student voted for. */
  lemma RankedColumn(m: Interactions, sims: seq<real>, self: nat, e: Entry)
    requires WellFormed(m) && |sims| == |m.students|
    requires e in Items(ScoreTable(m, sims, self))
    ensures e.job in m.jobs && Scored(m, self, |m.students|, IndexOf(m.jobs, e.job))
  {
    ScoreTableEntry(m, sims, self, e);
    var j :| 0 <= j < |m.jobs| && Scored(m, self, |m.students|, j) && m.jobs[j] == e.job;
    IndexOfDistinct(m.jobs, j);
  }

  /**
   Ties are broken by the dictionary's insertion order: of two ranked jobs
   with equal scores, the earlier one is the one whose first vote the loops
   of `recommend_jobs` reach first.
   */
  lemma RankingTieOrder(m: Interactions, sims: seq<real>, self: nat, p: nat, q: nat)
    requires WellFormed(m) && |sims| == |m.students|
    requires p < q < |Ranking(m, sims, self)|
    requires Ranking(m, sims, self)[p].score == Ranking(m, sims, self)[q].score
    ensures var r := Ranking(m, sims, self);
      && r[p].job in m.jobs && r[q].job in m.jobs
      && var a, b := IndexOf(m.jobs, r[p].job), IndexOf(m.jobs, r[q].job);
        && Scored(m, self, |m.students|, a) && Scored(m, self, |m.students|, b)
        && VoteBefore(FirstVoter(m, self, |m.students|, a), a, FirstVoter(m, self, |m.students|, b), b)
  {
    var d := ScoreTable(m, sims, self);
    var items := Items(d);
    var r := Ranking(m, sims, self);
    var v := r[p].score;
    SortDescStable(items, v);
    var p', q' := WithScoreKeepsOrder(r, v, p, q);
    var i, j := WithScoreOrderBack(items, v, p', q');
    RankedColumn(m, sims, self, r[p]);
    RankedColumn(m, sims, self, r[q]);
    IndexOfDistinct(d.order, i);
    IndexOfDistinct(d.order, j);
    ScoreTableOrder(m, sims, self, IndexOf(m.jobs, r[p].job), IndexOf(m.jobs, r[q].job));
  }

  /** An unknown student id yields the error reply and no recommendations. */
  lemma RecommendUnknownStudent(m: Interactions, sims: seq<real>, studentId: string, topN: int)
    requires WellFormed(m) && |sims| == |m.students|
    requires studentId !in m.students
    ensures Recommend(m, sims, studentId, topN) == StudentNotFound
  {
  }

  function Min(a: int, b: int): int { if a <= b then a else b }

  function Max(a: int, b: int): int { if a >= b then a else b }

  /**
   The reply for a known student is the first `top_n` jobs of the ranking, in
   Python's slicing sense: `min(top_n, scored)` of them for a non-negative
   `top_n`, and all but the last `-top_n` of them for a negative one.
   */
  lemma RecommendIsRankingPrefix(m: Interactions, sims: seq<real>, studentId: string, topN: int)
    requires WellFormed(m) && |sims| == |m.students| && studentId in m.students
    ensures var self := IndexOf(m.students, studentId);
      var r := Ranking(m, sims, self);
      var scored := |ScoredJobs(m, self)|;
      var out := Recommend(m, sims, studentId, topN).jobs;
      && |out| == (if topN >= 0 then Min(topN, scored) else Max(0, scored + topN))
      && forall k :: 0 <= k < |out| ==> out[k] == r[k].job
  {
    var self := IndexOf(m.students, studentId);
    RankingSize(m, sims, self);
    assert Recommend(m, sims, studentId, topN).jobs == Names(SliceTo(Ranking(m, sims, self), topN));
  }

  /**
   Every recommended job was positively interacted with by some student other
   than the queried one, and no job is recommended twice.
   */
  lemma RecommendOnlyScoredDistinct(m: Interactions, sims: seq<real>, studentId: string, topN: int)
    requires WellFormed(m) && |sims| == |m.students| && studentId in m.students
    ensures var self := IndexOf(m.students, studentId);
      var out := Recommend(m, sims, studentId, topN).jobs;
      && Distinct(out)
      && forall k :: 0 <= k < |out| ==> out[k] in ScoredJobs(m, self)
  {
    var self := IndexOf(m.students, studentId);
    var r := Ranking(m, sims, self);
    RankingContents(m, sims, self);
    RecommendIsRankingPrefix(m, sims, studentId, topN);
    var out := Recommend(m, sims, studentId, topN).jobs;
    PrefixOfNamesDistinct(r, out);
  }

  lemma PrefixOfNamesDistinct(r: seq<Entry>, out: seq<string>)
    requires Distinct(Names(r)) && |out| <= |r|
    requires forall k :: 0 <= k < |out| ==> out[k] == r[k].job
    ensures Distinct(out)
  {
    forall i, j | 0 <= i < j < |out| ensures out[i] != out[j] {
      assert out[i] == Names(r)[i] && out[j] == Names(r)[j];
    }
  }

  /** The recommended jobs come in non-increasing order of their reference scores. */
  lemma RecommendOrdered(m: Interactions, sims: seq<real>, studentId: string, topN: int)
    requires WellFormed(m) && |sims| == |m.students| && studentId in m.students
    ensures var self := IndexOf(m.students, studentId);
      var out := Recommend(m, sims, studentId, topN).jobs;
      && (forall k :: 0 <= k < |out| ==> out[k] in m.jobs)
      && forall p, q :: 0 <= p < q < |out| ==> JobScore(m, sims, self, out[p]) >= JobScore(m, sims, self, out[q])
  {
    RankingContents(m, sims, IndexOf(m.students, studentId));
  }

  /**
   When `top_n` covers every scored job, a job is recommended exactly when some
   other student interacted with it, whatever the queried student's own row
   says about it.
   */
  lemma RecommendComplete(m: Interactions, sims: seq<real>, studentId: string, topN: int)
    requires WellFormed(m) && |sims| == |m.students| && studentId in m.students
    requires topN >= |ScoredJobs(m, IndexOf(m.students, studentId))|
    ensures var out := Recommend(m, sims, studentId, topN).jobs;
      forall job :: job in out <==> job in ScoredJobs(m, IndexOf(m.students, studentId))
  {
    var self := IndexOf(m.students, studentId);
    var r := Ranking(m, sims, self);
    RankingContents(m, sims, self);
    var out := Recommend(m, sims, studentId, topN).jobs;
    assert out == Names(r);
  }

  /** The scores depend only on the rows and similarities of the students other than `self`. */
  lemma {:induction false} AccumulateAgree(m1: Interactions, sims1: seq<real>, m2: Interactions, sims2: seq<real>, self: nat, n: nat)
    requires WellFormed(m1) && |sims1| == |m1.students| && n <= |m1.students|
    requires WellFormed(m2) && |sims2| == |m2.students| && n <= |m2.students|
    requires m1.jobs == m2.jobs
    requires forall i :: 0 <= i < n && i != self ==> m1.cells[i] == m2.cells[i] && sims1[i] == sims2[i]
    ensures Accumulate(m1, sims1, self, n) == Accumulate(m2, sims2, self, n)
  {
    if n > 0 {
      AccumulateAgree(m1, sims1, m2, sims2, self, n - 1);
    }
  }

  /** The scores do not depend on the queried student's own row or own similarity. */
  lemma AccumulateIgnoresOwnRow(m: Interactions, sims: seq<real>, self: nat, n: nat, row: seq<int>, sim: real)
    requires WellFormed(m) && |sims| == |m.students| && self < |m.students| && n <= |m.students|
    requires |row| == |m.jobs|
    ensures WellFormed(m.(cells := m.cells[self := row]))
    ensures Accumulate(m.(cells := m.cells[self := row]), sims[self := sim], self, n) == Accumulate(m, sims, self, n)
  {
    var m' := m.(cells := m.cells[self := row]);
    assert WellFormed(m');
    AccumulateAgree(m', sims[self := sim], m, sims, self, n);
  }

  /**
   The queried student's own row never contributes: replacing its interactions
   and its own similarity by anything leaves the reply unchanged.
   */
  lemma RecommendIgnoresOwnRow(m: Interactions, sims: seq<real>, studentId: string, topN: int, row: seq<int>, sim: real)
    requires WellFormed(m) && |sims| == |m.students| && studentId in m.students
    requires |row| == |m.jobs|
    ensures var self := IndexOf(m.students, studentId);
      var m' := m.(cells := m.cells[self := row]);
      WellFormed(m') && Recommend(m', sims[self := sim], studentId, topN) == Recommend(m, sims, studentId, topN)
  {
    var self := IndexOf(m.students, studentId);
    AccumulateIgnoresOwnRow(m, sims, self, |m.students|, row, sim);
  }

  /** A job nobody has a positive interaction with is never recommended. */
  lemma NeverRecommendsUntouchedJob(m: Interactions, sims: seq<real>, studentId: string, topN: int, j: nat)
    requires WellFormed(m) && |sims| == |m.students| && j < |m.jobs|
    requires forall i :: 0 <= i < |m.students| ==> m.cells[i][j] <= 0
    ensures Recommend(m, sims, studentId, topN).Recommendations? ==>
      m.jobs[j] !in Recommend(m, sims, studentId, topN).jobs
  {
    if studentId in m.students {
      var self := IndexOf(m.students, studentId);
      RecommendOnlyScoredDistinct(m, sims, studentId, topN);
      assert !Scored(m, self, |m.students|, j);
      assert m.jobs[j] !in ScoredJobs(m, self);
    }
  }

  /** With the shipped table, `jobD` is never recommended, whatever the similarities. */
  lemma DemoNeverRecommendsJobD(sims: seq<real>, studentId: string, topN: int)
    requires |sims| == 3
    ensures WellFormed(Demo)
    ensures Recommend(Demo, sims, studentId, topN).Recommendations? ==>
      "jobD" !in Recommend(Demo, sims, studentId, topN).jobs
  {
    assert WellFormed(Demo);
    NeverRecommendsUntouchedJob(Demo, sims, studentId, topN, 3);
  }

  // The shipped table queried for `student1`. Its cosine similarities to the
  // three rows are 1 (itself), 1/2 and 1/2: `jobB` gets two votes of 1/2, and
  // `jobA` and `jobC` tie at 1/2 in the order they entered the dictionary.
  lemma DemoVotesOfStudent2First()
    ensures AddRow(Dict([], map[]), ["jobA", "jobB", "jobC", "jobD"], [1, 1, 0, 0], 0.5, 1)
         == Dict(["jobA"], map["jobA" := 0.5])
  {
    assert Weight(0.5, 1) == 0.5;
    assert map[]["jobA" := 0.0 + 0.5] == map["jobA" := 0.5];
  }

  lemma DemoVotesOfStudent2Begin()
    ensures AddRow(Dict([], map[]), ["jobA", "jobB", "jobC", "jobD"], [1, 1, 0, 0], 0.5, 2)
         == Dict(["jobA", "jobB"], map["jobA" := 0.5, "jobB" := 0.5])
  {
    var d1 := Dict(["jobA"], map["jobA" := 0.5]);
    DemoVotesOfStudent2First();
    assert Weight(0.5, 1) == 0.5;
    assert "jobB" !in d1.values;
    assert Bump(d1, "jobB", 0.5) == Dict(["jobA", "jobB"], map["jobA" := 0.5, "jobB" := 0.5]);
  }

  lemma DemoVotesOfStudent2()
    ensures AddRow(Dict([], map[]), ["jobA", "jobB", "jobC", "jobD"], [1, 1, 0, 0], 0.5, 4)
         == Dict(["jobA", "jobB"], map["jobA" := 0.5, "jobB" := 0.5])
  {
    var jobs, row := ["jobA", "jobB", "jobC", "jobD"], [1, 1, 0, 0];
    DemoVotesOfStudent2Begin();
    assert AddRow(Dict([], map[]), jobs, row, 0.5, 3) == Dict(["jobA", "jobB"], map["jobA" := 0.5, "jobB" := 0.5]);
  }

  lemma DemoVotesOfStudent3Begin()
    ensures AddRow(Dict(["jobA", "jobB"], map["jobA" := 0.5, "jobB" := 0.5]), ["jobA", "jobB", "jobC", "jobD"], [0, 1, 1, 0], 0.5, 2)
         == Dict(["jobA", "jobB"], map["jobA" := 0.5, "jobB" := 1.0])
  {
    var jobs, row := ["jobA", "jobB", "jobC", "jobD"], [0, 1, 1, 0];
    var d2 := Dict(["jobA", "jobB"], map["jobA" := 0.5, "jobB" := 0.5]);
    assert AddRow(d2, jobs, row, 0.5, 1) == d2;
    assert Weight(0.5, 1) == 0.5;
  }

  lemma DemoVotesOfStudent3()
    ensures AddRow(Dict(["jobA", "jobB"], map["jobA" := 0.5, "jobB" := 0.5]), ["jobA", "jobB", "jobC", "jobD"], [0, 1, 1, 0], 0.5, 4)
         == Dict(["jobA", "jobB", "jobC"], map["jobA" := 0.5, "jobB" := 1.0, "jobC" := 0.5])
  {
    var jobs, row := ["jobA", "jobB", "jobC", "jobD"], [0, 1, 1, 0];
    var d2 := Dict(["jobA", "jobB"], map["jobA" := 0.5, "jobB" := 0.5]);
    var d3 := Dict(["jobA", "jobB", "jobC"], map["jobA" := 0.5, "jobB" := 1.0, "jobC" := 0.5]);
    DemoVotesOfStudent3Begin();
    assert Weight(0.5, 1) == 0.5;
    assert AddRow(d2, jobs, row, 0.5, 3) == d3;
  }

  lemma DemoWellFormed()
    ensures WellFormed(Demo)
    ensures Demo.jobs == ["jobA", "jobB", "jobC", "jobD"]
    ensures Demo.cells[1] == [1, 1, 0, 0] && Demo.cells[2] == [0, 1, 1, 0]
  {
  }

  lemma DemoAfterStudent1()
    ensures WellFormed(Demo)
    ensures Accumulate(Demo, [1.0, 0.5, 0.5], 0, 1) == Dict([], map[])
  {
    DemoWellFormed();
    assert Accumulate(Demo, [1.0, 0.5, 0.5], 0, 0) == Dict([], map[]);
  }

  lemma DemoAfterStudent2()
    ensures WellFormed(Demo)
    ensures Accumulate(Demo, [1.0, 0.5, 0.5], 0, 2) == Dict(["jobA", "jobB"], map["jobA" := 0.5, "jobB" := 0.5])
  {
    DemoWellFormed();
    DemoAfterStudent1();
    DemoVotesOfStudent2();
  }

  lemma DemoScoreTable()
    ensures WellFormed(Demo)
    ensures ScoreTable(Demo, [1.0, 0.5, 0.5], 0) == Dict(["jobA", "jobB", "jobC"], map["jobA" := 0.5, "jobB" := 1.0, "jobC" := 0.5])
  {
    DemoWellFormed();
    DemoAfterStudent2();
    DemoVotesOfStudent3();
  }

  lemma DemoItems()
    ensures Items(Dict(["jobA", "jobB", "jobC"], map["jobA" := 0.5, "jobB" := 1.0, "jobC" := 0.5]))
         == [Entry("jobA", 0.5), Entry("jobB", 1.0), Entry("jobC", 0.5)]
  {
    var d3 := Dict(["jobA", "jobB", "jobC"], map["jobA" := 0.5, "jobB" := 1.0, "jobC" := 0.5]);
    assert ValidDict(d3);
    var r := Items(d3);
    assert |r| == 3 && r[0] == Entry("jobA", 0.5) && r[1] == Entry("jobB", 1.0) && r[2] == Entry("jobC", 0.5);
  }

  lemma DemoSortTail()
    ensures SortDesc([Entry("jobB", 1.0), Entry("jobC", 0.5)]) == [Entry("jobB", 1.0), Entry("jobC", 0.5)]
  {
    var b, c := Entry("jobB", 1.0), Entry("jobC", 0.5);
    assert [b, c][1..] == [c] && [c][1..] == [];
    assert SortDesc([c]) == InsertDesc(c, []) == [c];
  }

  lemma DemoSort()
    ensures SortDesc([Entry("jobA", 0.5), Entry("jobB", 1.0), Entry("jobC", 0.5)])
         == [Entry("jobB", 1.0), Entry("jobA", 0.5), Entry("jobC", 0.5)]
  {
    var a, b, c := Entry("jobA", 0.5), Entry("jobB", 1.0), Entry("jobC", 0.5);
    DemoSortTail();
    assert [a, b, c][1..] == [b, c] && [b, c][1..] == [c];
    assert InsertDesc(a, [c]) == [a, c];
    assert InsertDesc(a, [b, c]) == [b, a, c];
  }

  lemma DemoRanking()
    ensures WellFormed(Demo)
    ensures Ranking(Demo, [1.0, 0.5, 0.5], 0) == [Entry("jobB", 1.0), Entry("jobA", 0.5), Entry("jobC", 0.5)]
  {
    DemoScoreTable();
    DemoItems();
    DemoSort();
  }

  lemma DemoNames()
    ensures Names([Entry("jobB", 1.0), Entry("jobA", 0.5), Entry("jobC", 0.5)]) == ["jobB", "jobA", "jobC"]
  {
    var names := Names([Entry("jobB", 1.0), Entry("jobA", 0.5), Entry("jobC", 0.5)]);
    assert |names| == 3 && names[0] == "jobB" && names[1] == "jobA" && names[2] == "jobC";
  }

  lemma DemoSlice()
    ensures SliceTo([Entry("jobB", 1.0), Entry("jobA", 0.5), Entry("jobC", 0.5)], 5)
         == [Entry("jobB", 1.0), Entry("jobA", 0.5), Entry("jobC", 0.5)]
  {
  }

  lemma DemoStudent1()
    ensures WellFormed(Demo)
    ensures Recommend(Demo, [1.0, 0.5, 0.5], "student1", 5) == Recommendations(["jobB", "jobA", "jobC"])
  {
    DemoRanking();
    DemoSlice();
    DemoNames();
    assert Demo.students[0] == "student1";
    assert IndexOf(Demo.students, "student1") == 0;
  }
}
