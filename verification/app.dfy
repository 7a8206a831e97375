/** App.tsx: the list of logged jobs. `addJob` puts a new job in front and
    re-sorts, `updateJob` replaces the job with a matching id and re-sorts;
    both sort newest first with `Array.prototype.sort`, which is stable. */
module App {
  import opened JobTypes

  /** The sort key, `timestamp.getTime()`. */
  function Key(j: Job): int
  {
    TimeValue(j.timestamp)
  }

  /** Ordered as the comparator `b.timestamp - a.timestamp` orders:
      timestamps never increase along the list. */
  predicate NewestFirst(s: seq<Job>)
  {
    forall i, j :: 0 <= i < j < |s| ==> Key(s[i]) >= Key(s[j])
  }

  /** The jobs of s with sort key k, in their order in s. */
  function WithKey(s: seq<Job>, k: int): seq<Job>
  {
    if s == [] then []
    else (if Key(s[0]) == k then [s[0]] else []) + WithKey(s[1..], k)
  }

  /** Puts x in front of the first job whose key is not larger than its own. */
  function Insert(x: Job, s: seq<Job>): (r: seq<Job>)
    ensures |r| == |s| + 1
    ensures multiset(r) == multiset(s) + multiset{x}
  {
    if s == [] || Key(x) >= Key(s[0]) then
      [x] + s
    else
      assert s == [s[0]] + s[1..];
      [s[0]] + Insert(x, s[1..])
  }

  /** No job of s has a key above k. */
  predicate KeysAtMost(s: seq<Job>, k: int)
  {
    forall i :: 0 <= i < |s| ==> Key(s[i]) <= k
  }

  lemma NewestFirstCons(a: Job, t: seq<Job>)
    requires NewestFirst(t) && KeysAtMost(t, Key(a))
    ensures NewestFirst([a] + t)
  {
    forall i, j | 0 <= i < j < |[a] + t| ensures Key(([a] + t)[i]) >= Key(([a] + t)[j]) {
      if i > 0 {
        assert ([a] + t)[i] == t[i - 1];
      }
    }
  }

  lemma {:induction false} KeysAtMostInsert(x: Job, s: seq<Job>, k: int)
    requires KeysAtMost(s, k) && Key(x) <= k
    ensures KeysAtMost(Insert(x, s), k)
  {
    if s != [] && Key(x) < Key(s[0]) {
      KeysAtMostInsert(x, s[1..], k);
    }
  }

  /** Inserting into a newest-first list keeps it newest first. */
  lemma {:induction false} InsertKeepsOrder(x: Job, s: seq<Job>)
    requires NewestFirst(s)
    ensures NewestFirst(Insert(x, s))
  {
    if s == [] || Key(x) >= Key(s[0]) {
      NewestFirstCons(x, s);
    } else {
      InsertKeepsOrder(x, s[1..]);
      KeysAtMostInsert(x, s[1..], Key(s[0]));
      NewestFirstCons(s[0], Insert(x, s[1..]));
    }
  }

  /** The result of the stable sort, newest first: insertion from the back,
      each job going in front of the jobs whose key equals its own. */
  function SortNewestFirst(s: seq<Job>): (r: seq<Job>)
    ensures |r| == |s|
    ensures multiset(r) == multiset(s)
    ensures NewestFirst(r)
  {
    if s == [] then []
    else
      assert s == [s[0]] + s[1..];
      InsertKeepsOrder(s[0], SortNewestFirst(s[1..]));
      Insert(s[0], SortNewestFirst(s[1..]))
  }

  /** Inserting x changes the jobs with x's key by putting x in front of
      them, and no other key's jobs. */
  lemma {:induction false} WithKeyOfInsert(x: Job, s: seq<Job>, k: int)
    ensures WithKey(Insert(x, s), k) == (if Key(x) == k then [x] else []) + WithKey(s, k)
  {
    if s == [] || Key(x) >= Key(s[0]) {
      WithKeyCons(x, s, k);
    } else {
      var t := Insert(x, s[1..]);
      var e0: seq<Job> := if Key(s[0]) == k then [s[0]] else [];
      var ex: seq<Job> := if Key(x) == k then [x] else [];
      var w1 := WithKey(s[1..], k);
      WithKeyOfInsert(x, s[1..], k);
      assert Insert(x, s) == [s[0]] + t;
      WithKeyCons(s[0], t, k);
      assert WithKey(Insert(x, s), k) == e0 + (ex + w1);
      assert WithKey(s, k) == e0 + w1;
      assert e0 == [] || ex == [];
      SwapAroundEmpty(e0, ex, w1);
    }
  }

  lemma SwapAroundEmpty(a: seq<Job>, b: seq<Job>, c: seq<Job>)
    requires a == [] || b == []
    ensures a + (b + c) == b + (a + c)
  {
    if a == [] {
      assert a + (b + c) == b + c && b + (a + c) == b + c;
    } else {
      assert a + (b + c) == a + c && b + (a + c) == a + c;
    }
  }

  lemma WithKeyCons(a: Job, t: seq<Job>, k: int)
    ensures WithKey([a] + t, k) == (if Key(a) == k then [a] else []) + WithKey(t, k)
  {
    assert ([a] + t)[1..] == t;
  }

  /** Stability: jobs with the same timestamp keep the order they had. */
  lemma {:induction false} SortIsStable(s: seq<Job>, k: int)
    ensures WithKey(SortNewestFirst(s), k) == WithKey(s, k)
  {
    if s != [] {
      SortIsStable(s[1..], k);
      WithKeyOfInsert(s[0], SortNewestFirst(s[1..]), k);
    }
  }

  lemma {:induction false} WithKeyNonEmpty(s: seq<Job>, i: int)
    requires 0 <= i < |s|
    ensures WithKey(s, Key(s[i])) != []
  {
    if i > 0 {
      WithKeyNonEmpty(s[1..], i - 1);
    }
  }

  lemma {:induction false} WithKeyMember(s: seq<Job>, k: int)
    requires WithKey(s, k) != []
    ensures exists i :: 0 <= i < |s| && Key(s[i]) == k
  {
    if Key(s[0]) != k {
      WithKeyMember(s[1..], k);
      var i :| 0 <= i < |s[1..]| && Key(s[1..][i]) == k;
      assert Key(s[i + 1]) == k;
    }
  }

  /** The first job of a newest-first list has the largest key present. */
  lemma LeadingKeyIsLargest(t: seq<Job>, u: seq<Job>)
    requires NewestFirst(t) && NewestFirst(u) && t != []
    requires WithKey(t, Key(t[0])) == WithKey(u, Key(t[0]))
    ensures u != [] && Key(u[0]) >= Key(t[0])
  {
    WithKeyNonEmpty(t, 0);
    WithKeyMember(u, Key(t[0]));
    var i :| 0 <= i < |u| && Key(u[i]) == Key(t[0]);
    assert i == 0 || Key(u[0]) >= Key(u[i]);
  }

  /** Dropping the first job of two lists that start with the same job and
      agree on every key leaves lists that agree on every key. */
  lemma WithKeyTail(t: seq<Job>, u: seq<Job>, k: int)
    requires t != [] && u != [] && t[0] == u[0]
    requires WithKey(t, k) == WithKey(u, k)
    ensures WithKey(t[1..], k) == WithKey(u[1..], k)
  {
    var head := if Key(t[0]) == k then [t[0]] else [];
    assert WithKey(t, k) == head + WithKey(t[1..], k);
    assert WithKey(u, k) == head + WithKey(u[1..], k);
    assert (head + WithKey(t[1..], k))[|head|..] == WithKey(t[1..], k);
    assert (head + WithKey(u[1..], k))[|head|..] == WithKey(u[1..], k);
  }

  /** A stable sort has one possible result: two newest-first lists with
      the same jobs of every key, in the same order, are equal. */
  lemma {:induction false} StableSortedUnique(t: seq<Job>, u: seq<Job>)
    requires NewestFirst(t) && NewestFirst(u)
    requires forall k :: WithKey(t, k) == WithKey(u, k)
    ensures t == u
  {
    if t == [] {
      if u != [] {
        WithKeyNonEmpty(u, 0);
        assert false;
      }
    } else {
      var k0 := Key(t[0]);
      LeadingKeyIsLargest(t, u);
      assert WithKey(u, Key(u[0])) == WithKey(t, Key(u[0]));
      LeadingKeyIsLargest(u, t);
      assert Key(u[0]) == k0;
      assert WithKey(t, k0) == [t[0]] + WithKey(t[1..], k0);
      assert WithKey(u, k0) == [u[0]] + WithKey(u[1..], k0);
      assert t[0] == WithKey(t, k0)[0] == WithKey(u, k0)[0] == u[0];
      forall k ensures WithKey(t[1..], k) == WithKey(u[1..], k) {
        WithKeyTail(t, u, k);
      }
      assert NewestFirst(t[1..]) && NewestFirst(u[1..]);
      StableSortedUnique(t[1..], u[1..]);
      assert t == [t[0]] + t[1..] && u == [u[0]] + u[1..];
    }
  }

  /** Any newest-first list that keeps every key's jobs in their order is
      what `sort` returns. */
  lemma SortCharacterized(s: seq<Job>, t: seq<Job>)
    requires NewestFirst(t)
    requires forall k :: WithKey(t, k) == WithKey(s, k)
    ensures SortNewestFirst(s) == t
  {
    forall k ensures WithKey(SortNewestFirst(s), k) == WithKey(t, k) {
      SortIsStable(s, k);
    }
    StableSortedUnique(SortNewestFirst(s), t);
  }

  /** Sorting a list that is already newest first leaves it as it is. */
  lemma SortOfSorted(s: seq<Job>)
    requires NewestFirst(s)
    ensures SortNewestFirst(s) == s
  {
    SortCharacterized(s, s);
  }

  // ---------------------------------------------------------------- addJob

  /** Where `addJob` puts a new job into a newest-first list: before the
      first job that is not newer. */
  function InsertionPoint(x: Job, s: seq<Job>): (p: nat)
    ensures p <= |s|
    ensures forall i :: 0 <= i < p ==> Key(s[i]) > Key(x)
    ensures p < |s| ==> Key(s[p]) <= Key(x)
  {
    if s == [] || Key(x) >= Key(s[0]) then 0 else 1 + InsertionPoint(x, s[1..])
  }

  lemma SpliceCons(s: seq<Job>, q: nat, x: Job)
    requires s != [] && q <= |s| - 1
    ensures [s[0]] + (s[1..][..q] + [x] + s[1..][q..]) == s[..q + 1] + [x] + s[q + 1..]
  {
    assert s[..q + 1] == [s[0]] + s[1..][..q];
    assert s[q + 1..] == s[1..][q..];
  }

  lemma SpliceParts(s: seq<Job>, p: nat, x: Job)
    requires p <= |s|
    ensures var r := s[..p] + [x] + s[p..];
            r[p] == x && r[..p] + r[p + 1..] == s
  {
    var r := s[..p] + [x] + s[p..];
    assert r[..p] == s[..p] && r[p + 1..] == s[p..];
    assert s[..p] + s[p..] == s;
  }

  lemma {:induction false} InsertAtPoint(x: Job, s: seq<Job>)
    ensures var p := InsertionPoint(x, s);
            Insert(x, s) == s[..p] + [x] + s[p..]
  {
    if s == [] || Key(x) >= Key(s[0]) {
      assert s[..0] == [] && s[0..] == s;
    } else {
      var q := InsertionPoint(x, s[1..]);
      InsertAtPoint(x, s[1..]);
      assert InsertionPoint(x, s) == q + 1;
      assert Insert(x, s) == [s[0]] + (s[1..][..q] + [x] + s[1..][q..]);
      SpliceCons(s, q, x);
    }
  }

  /** Sorting a newest-first list with one job put in front inserts that
      job. */
  lemma SortAfterPrepend(x: Job, s: seq<Job>)
    requires NewestFirst(s)
    ensures SortNewestFirst([x] + s) == Insert(x, s)
  {
    var xs := [x] + s;
    assert xs[0] == x && xs[1..] == s;
    SortOfSorted(s);
  }

  /** `[newJob, ...prevJobs].sort(...)` on a newest-first list: the old
      list with the new job inserted, in front of every job with the same
      timestamp and behind every newer one. The old jobs keep their order. */
  lemma AddToSorted(x: Job, s: seq<Job>)
    requires NewestFirst(s)
    ensures var p := InsertionPoint(x, s);
            var r := SortNewestFirst([x] + s);
            && r == s[..p] + [x] + s[p..]
            && r[p] == x
            && r[..p] + r[p + 1..] == s
            && (forall i :: 0 <= i < |s| && Key(s[i]) == Key(x) ==> p <= i)
  {
    SortAfterPrepend(x, s);
    InsertAtPoint(x, s);
    SpliceParts(s, InsertionPoint(x, s), x);
  }

  // ------------------------------------------------------------- updateJob

  /** `prevJobs.map(job => job.id === updated.id ? updated : job)`. */
  function ReplaceById(s: seq<Job>, updated: Job): (r: seq<Job>)
    ensures |r| == |s|
    ensures forall i :: 0 <= i < |s| ==> r[i] == (if s[i].id == updated.id then updated else s[i])
  {
    if s == [] then []
    else [if s[0].id == updated.id then updated else s[0]] + ReplaceById(s[1..], updated)
  }

  /** Jobs with another id survive the replacement, each as often as before;
      every job that now carries the id is the updated one. */
  lemma {:induction false} ReplaceKeepsOthers(s: seq<Job>, updated: Job)
    ensures forall j: Job :: j.id != updated.id ==> multiset(ReplaceById(s, updated))[j] == multiset(s)[j]
    ensures forall j: Job :: j in ReplaceById(s, updated) && j.id == updated.id ==> j == updated
  {
    if s != [] {
      var r, t := ReplaceById(s, updated), ReplaceById(s[1..], updated);
      ReplaceKeepsOthers(s[1..], updated);
      assert s == [s[0]] + s[1..];
      assert r == [r[0]] + t;
      assert multiset(r) == multiset{r[0]} + multiset(t);
      assert multiset(s) == multiset{s[0]} + multiset(s[1..]);
    }
  }

  /** With no job carrying the id, the replacement changes nothing. */
  lemma ReplaceUnknownId(s: seq<Job>, updated: Job)
    requires forall i :: 0 <= i < |s| ==> s[i].id != updated.id
    ensures ReplaceById(s, updated) == s
  {
  }

  /** `prevJobs.map(...).sort(...)` on a newest-first list: as many jobs as
      before, newest first, every other job kept as often as before, every
      job with the id the updated one, and no change for an unknown id. */
  lemma UpdateSorted(s: seq<Job>, updated: Job)
    requires NewestFirst(s)
    ensures var r := SortNewestFirst(ReplaceById(s, updated));
            && |r| == |s| && NewestFirst(r)
            && (forall j: Job :: j.id != updated.id ==> multiset(r)[j] == multiset(s)[j])
            && (forall j: Job :: j in r && j.id == updated.id ==> j == updated)
            && ((forall i :: 0 <= i < |s| ==> s[i].id != updated.id) ==> r == s)
  {
    var m := ReplaceById(s, updated);
    var r := SortNewestFirst(m);
    ReplaceKeepsOthers(s, updated);
    forall j: Job | j in r && j.id == updated.id ensures j == updated {
      assert j in multiset(r);
      assert j in m;
    }
    if forall i :: 0 <= i < |s| ==> s[i].id != updated.id {
      ReplaceUnknownId(s, updated);
      SortOfSorted(s);
    }
  }

  /** The list of jobs the app shows. */
  class JobStore {
    var jobs: seq<Job>

    /** The list always stays newest first. */
    predicate Valid()
      reads this
    {
      NewestFirst(jobs)
    }

    /** `useState<Job[]>([])`. */
    constructor()
      ensures jobs == [] && Valid()
    {
      jobs := [];
    }

    /** `addJob(jobData)` with the id `crypto.randomUUID()` returns given as
        `id`, which no listed job carries. */
    method AddJob(jobData: JobData, id: string)
      requires Valid()
      requires forall i :: 0 <= i < |jobs| ==> jobs[i].id != id
      modifies this
      ensures Valid()
      ensures var newJob := WithId(jobData, id);
              var p := InsertionPoint(newJob, old(jobs));
              && jobs == old(jobs)[..p] + [newJob] + old(jobs)[p..]
              && jobs[p].id == id && DataOf(jobs[p]) == jobData
              && multiset(jobs) == multiset(old(jobs)) + multiset{newJob}
              && forall i :: 0 <= i < |jobs| ==> (jobs[i].id == id <==> i == p)
    {
      var newJob := WithId(jobData, id);
      var updated := [newJob] + jobs;
      AddToSorted(newJob, jobs);
      ghost var p := InsertionPoint(newJob, jobs);
      ghost var before := jobs;
      jobs := SortNewestFirst(updated);
      forall i | 0 <= i < |jobs| ensures jobs[i].id == id <==> i == p {
        if i < p {
          assert jobs[i] == before[i];
        } else if i > p {
          assert jobs[i] == before[i - 1];
        }
      }
    }

    /** `updateJob(updatedJob)`. */
    method UpdateJob(updatedJob: Job)
      requires Valid()
      modifies this
      ensures Valid()
      ensures jobs == SortNewestFirst(ReplaceById(old(jobs), updatedJob))
      ensures |jobs| == |old(jobs)|
      ensures forall j: Job :: j.id != updatedJob.id ==> multiset(jobs)[j] == multiset(old(jobs))[j]
      ensures forall j :: j in jobs && j.id == updatedJob.id ==> j == updatedJob
      ensures (forall i :: 0 <= i < |old(jobs)| ==> old(jobs)[i].id != updatedJob.id) ==> jobs == old(jobs)
    {
      var updated := ReplaceById(jobs, updatedJob);
      UpdateSorted(jobs, updatedJob);
      jobs := SortNewestFirst(updated);
    }
  }
}
