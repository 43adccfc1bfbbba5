/**
 * Resolving the approvals of a golden report: for each comparison the newest
 * decision counts, in whatever order the decisions are listed.
 */
module GoldenApprovals {
  import opened Ordering

  datatype Approval = Approval(id: string, reportId: string, comparisonId: string, approved: bool, createdAt: int)

  datatype Status = Matched | ChangedOutput | MissingApproved | OtherStatus

  datatype Comparison = Comparison(id: string, approvalRequired: bool, status: Status)

  datatype Resolution = Resolution(pending: nat, rejected: nat)

  predicate Newer(a: Approval, b: Approval) {
    a.createdAt > b.createdAt || (a.createdAt == b.createdAt && Below(b.id, a.id))
  }

  /** The decisions kept after the first n approvals. */
  function Latest(report: string, approvals: seq<Approval>, n: nat): map<string, Approval>
    requires n <= |approvals|
  {
    if n == 0 then map[] else
      var latest, a := Latest(report, approvals, n - 1), approvals[n - 1];
      if a.reportId == report && (a.comparisonId in latest ==> Newer(a, latest[a.comparisonId]))
      then latest[a.comparisonId := a]
      else latest
  }

  predicate Needed(c: Comparison) {
    c.approvalRequired || c.status.ChangedOutput? || c.status.MissingApproved?
  }

  function Resolved(latest: map<string, Approval>, comparisons: seq<Comparison>, n: nat): Resolution
    requires n <= |comparisons|
  {
    if n == 0 then Resolution(0, 0) else
      var r, c := Resolved(latest, comparisons, n - 1), comparisons[n - 1];
      if !Needed(c) then r
      else if c.id !in latest then r.(pending := r.pending + 1)
      else if !latest[c.id].approved then Resolution(r.pending + 1, r.rejected + 1)
      else r
  }

  function Resolve(report: string, comparisons: seq<Comparison>, approvals: seq<Approval>): Resolution {
    Resolved(Latest(report, approvals, |approvals|), comparisons, |comparisons|)
  }

  method ResolveApprovals(
    report: string, comparisons: seq<Comparison>, approvals: seq<Approval>)
    returns (resolution: Resolution)
    ensures resolution == Resolve(report, comparisons, approvals)
  {
    var latest: map<string, Approval> := map[];
    for i := 0 to |approvals|
      invariant latest == Latest(report, approvals, i)
    {
      var approval := approvals[i];
      if approval.reportId != report {
        continue;
      }
      if approval.comparisonId !in latest || Newer(approval, latest[approval.comparisonId]) {
        latest := latest[approval.comparisonId := approval];
      }
    }
    resolution := Resolution(0, 0);
    for i := 0 to |comparisons|
      invariant resolution == Resolved(latest, comparisons, i)
    {
      var comparison := comparisons[i];
      if !Needed(comparison) {
        continue;
      }
      if comparison.id !in latest {
        resolution := resolution.(pending := resolution.pending + 1);
        continue;
      }
      if !latest[comparison.id].approved {
        resolution := resolution.(pending := resolution.pending + 1, rejected := resolution.rejected + 1);
      }
    }
  }

  // --------------------------------------------------------- the newest decision

  predicate Concerns(a: Approval, report: string, comparison: string) {
    a.reportId == report && a.comparisonId == comparison
  }

  /** The approval is newer than every other one of the first n for the comparison. */
  predicate IsNewest(a: Approval, report: string, comparison: string, approvals: seq<Approval>, n: nat)
    requires n <= |approvals|
  {
    && (exists i :: 0 <= i < n && approvals[i] == a) && Concerns(a, report, comparison)
    && forall j :: 0 <= j < n && Concerns(approvals[j], report, comparison) ==>
         approvals[j] == a || Newer(a, approvals[j])
  }

  predicate DistinctIds(approvals: seq<Approval>) {
    forall i, j :: 0 <= i < j < |approvals| ==> approvals[i].id != approvals[j].id
  }

  lemma NewerOrOlder(a: Approval, b: Approval)
    ensures a.id != b.id ==> Newer(a, b) || Newer(b, a)
    ensures !(Newer(a, b) && Newer(b, a))
  {
    BelowTotal(a.id, b.id);
  }

  lemma NewerTransitive(a: Approval, b: Approval, c: Approval)
    requires Newer(a, b) && Newer(b, c)
    ensures Newer(a, c)
  {
    if a.createdAt == c.createdAt { BelowTransitive(c.id, b.id, a.id); }
  }

  lemma {:induction false} LatestIsNewest(report: string, approvals: seq<Approval>, n: nat, comparison: string)
    requires n <= |approvals| && DistinctIds(approvals)
    ensures var latest := Latest(report, approvals, n);
      && (comparison in latest ==> IsNewest(latest[comparison], report, comparison, approvals, n))
      && (comparison !in latest ==> forall i :: 0 <= i < n ==> !Concerns(approvals[i], report, comparison))
  {
    if n > 0 {
      var before, a := Latest(report, approvals, n - 1), approvals[n - 1];
      LatestIsNewest(report, approvals, n - 1, comparison);
      if Concerns(a, report, comparison) && comparison in before {
        var kept := before[comparison];
        var i :| 0 <= i < n - 1 && approvals[i] == kept;
        NewerOrOlder(a, kept);
        if Newer(a, kept) {
          forall j | 0 <= j < n && Concerns(approvals[j], report, comparison) && approvals[j] != a
            ensures Newer(a, approvals[j])
          {
            if approvals[j] != kept { NewerTransitive(a, kept, approvals[j]); }
          }
        }
      }
    }
  }

  lemma NewestIsUnique(a: Approval, b: Approval, report: string, comparison: string, s: seq<Approval>, t: seq<Approval>)
    requires forall x :: x in s <==> x in t
    requires IsNewest(a, report, comparison, s, |s|) && IsNewest(b, report, comparison, t, |t|)
    ensures a == b
  {
    assert a in t && b in s;
    var i :| 0 <= i < |t| && t[i] == a;
    var j :| 0 <= j < |s| && s[j] == b;
    NewerOrOlder(a, b);
  }

  /** The order in which decisions are listed does not matter. */
  lemma ResolutionIgnoresOrder(report: string, comparisons: seq<Comparison>, s: seq<Approval>, t: seq<Approval>)
    requires DistinctIds(s) && DistinctIds(t) && forall x :: x in s <==> x in t
    ensures Resolve(report, comparisons, s) == Resolve(report, comparisons, t)
  {
    var a, b := Latest(report, s, |s|), Latest(report, t, |t|);
    forall c ensures (c in a <==> c in b) && (c in a ==> a[c] == b[c]) {
      LatestIsNewest(report, s, |s|, c);
      LatestIsNewest(report, t, |t|, c);
      if c in a && c in b { NewestIsUnique(a[c], b[c], report, c, s, t); }
      if c in a { KnownElsewhere(a[c], report, c, s, t); }
      if c in b { KnownElsewhere(b[c], report, c, t, s); }
    }
    assert a == b;
  }

  lemma KnownElsewhere(a: Approval, report: string, comparison: string, s: seq<Approval>, t: seq<Approval>)
    requires (forall x :: x in s <==> x in t) && IsNewest(a, report, comparison, s, |s|)
    ensures exists i :: 0 <= i < |t| && Concerns(t[i], report, comparison)
  {
    assert a in t;
    var i :| 0 <= i < |t| && t[i] == a;
    assert Concerns(t[i], report, comparison);
  }

  /** Nothing is pending exactly when the newest decision on every comparison that needs one approves it. */
  lemma NothingPendingIff(report: string, comparisons: seq<Comparison>, approvals: seq<Approval>)
    requires DistinctIds(approvals)
    ensures Resolve(report, comparisons, approvals).pending == 0 <==>
      (forall i :: 0 <= i < |comparisons| && Needed(comparisons[i]) ==>
        ApprovedLast(comparisons[i].id, report, approvals))
  {
    var latest := Latest(report, approvals, |approvals|);
    PendingIff(latest, comparisons, |comparisons|);
    forall c ensures ApprovedLast(c, report, approvals) <==> c in latest && latest[c].approved {
      LatestIsNewest(report, approvals, |approvals|, c);
      if a :| IsNewest(a, report, c, approvals, |approvals|) && a.approved {
        var i :| 0 <= i < |approvals| && approvals[i] == a;
        assert Concerns(approvals[i], report, c);
        NewestIsUnique(a, latest[c], report, c, approvals, approvals);
      }
    }
  }

  ghost predicate ApprovedLast(comparison: string, report: string, approvals: seq<Approval>) {
    exists a :: IsNewest(a, report, comparison, approvals, |approvals|) && a.approved
  }

  lemma {:induction false} PendingIff(latest: map<string, Approval>, comparisons: seq<Comparison>, n: nat)
    requires n <= |comparisons|
    ensures Resolved(latest, comparisons, n).pending == 0 <==>
      (forall i :: 0 <= i < n && Needed(comparisons[i]) ==>
        comparisons[i].id in latest && latest[comparisons[i].id].approved)
    ensures Resolved(latest, comparisons, n).rejected <= Resolved(latest, comparisons, n).pending
  {
    if n > 0 { PendingIff(latest, comparisons, n - 1); }
  }

  // ------------------------------------------------ the counts, decision by decision

  /** The report's decision on the comparison with the greatest time, then the greatest id. */
  ghost predicate Decides(a: Approval, report: string, comparison: string, approvals: seq<Approval>) {
    && a in approvals && a.reportId == report && a.comparisonId == comparison
    && forall b :: b in approvals && b.reportId == report && b.comparisonId == comparison && b != a ==>
         b.createdAt < a.createdAt || (b.createdAt == a.createdAt && Below(b.id, a.id))
  }

  lemma DecidesIff(a: Approval, report: string, comparison: string, approvals: seq<Approval>)
    requires DistinctIds(approvals)
    ensures var latest := Latest(report, approvals, |approvals|);
      Decides(a, report, comparison, approvals) <==> comparison in latest && latest[comparison] == a
  {
    var latest := Latest(report, approvals, |approvals|);
    LatestIsNewest(report, approvals, |approvals|, comparison);
    if comparison in latest { NewestDecides(latest[comparison], report, comparison, approvals); }
    if Decides(a, report, comparison, approvals) {
      var i :| 0 <= i < |approvals| && approvals[i] == a;
      assert Concerns(approvals[i], report, comparison);
      TwoDecide(a, latest[comparison], report, comparison, approvals);
    }
  }

  lemma NewestDecides(a: Approval, report: string, comparison: string, approvals: seq<Approval>)
    requires IsNewest(a, report, comparison, approvals, |approvals|)
    ensures Decides(a, report, comparison, approvals)
  {
    forall b | b in approvals && b.reportId == report && b.comparisonId == comparison && b != a
      ensures b.createdAt < a.createdAt || (b.createdAt == a.createdAt && Below(b.id, a.id))
    {
      var j :| 0 <= j < |approvals| && approvals[j] == b;
      assert Concerns(approvals[j], report, comparison);
    }
  }

  lemma TwoDecide(a: Approval, b: Approval, report: string, comparison: string, approvals: seq<Approval>)
    requires Decides(a, report, comparison, approvals) && Decides(b, report, comparison, approvals)
    ensures a == b
  {
    BelowTotal(a.id, b.id);
  }

  /** An output that changed, an approved one that is missing, or one marked so, waits for a decision. */
  predicate Awaits(c: Comparison) {
    c.status == ChangedOutput || c.status == MissingApproved || c.approvalRequired
  }

  ghost predicate Undecided(c: Comparison, report: string, approvals: seq<Approval>) {
    Awaits(c) && forall a :: a in approvals ==> !(Decides(a, report, c.id, approvals) && a.approved)
  }

  ghost predicate Declined(c: Comparison, report: string, approvals: seq<Approval>) {
    Awaits(c) && exists a :: a in approvals && Decides(a, report, c.id, approvals) && !a.approved
  }

  lemma VerdictAt(c: Comparison, report: string, approvals: seq<Approval>)
    requires DistinctIds(approvals)
    ensures var latest := Latest(report, approvals, |approvals|);
      && (Undecided(c, report, approvals) <==> Needed(c) && (c.id in latest ==> !latest[c.id].approved))
      && (Declined(c, report, approvals) <==> Needed(c) && c.id in latest && !latest[c.id].approved)
  {
    forall a ensures Decides(a, report, c.id, approvals) <==>
        c.id in Latest(report, approvals, |approvals|) && Latest(report, approvals, |approvals|)[c.id] == a
    {
      DecidesIff(a, report, c.id, approvals);
    }
    var latest := Latest(report, approvals, |approvals|);
    if c.id in latest { assert Decides(latest[c.id], report, c.id, approvals); }
  }

  /** The places among the first n where p holds. */
  ghost function Places<T(!new)>(s: seq<T>, p: T -> bool, n: nat): set<nat>
    requires n <= |s|
  {
    set i: nat | i < n && p(s[i])
  }

  lemma PlacesMore<T(!new)>(s: seq<T>, p: T -> bool, n: nat)
    requires n < |s|
    ensures |Places(s, p, n + 1)| == |Places(s, p, n)| + if p(s[n]) then 1 else 0
  {
    assert Places(s, p, n + 1) == if p(s[n]) then Places(s, p, n) + {n} else Places(s, p, n);
  }

  lemma {:induction false} CountsPlaces(
    latest: map<string, Approval>, comparisons: seq<Comparison>, n: nat, open: Comparison -> bool,
    declined: Comparison -> bool)
    requires n <= |comparisons|
    requires forall c :: open(c) <==> Needed(c) && (c.id in latest ==> !latest[c.id].approved)
    requires forall c :: declined(c) <==> Needed(c) && c.id in latest && !latest[c.id].approved
    ensures Resolved(latest, comparisons, n) ==
            Resolution(|Places(comparisons, open, n)|, |Places(comparisons, declined, n)|)
  {
    if n > 0 {
      CountsPlaces(latest, comparisons, n - 1, open, declined);
      PlacesMore(comparisons, open, n - 1);
      PlacesMore(comparisons, declined, n - 1);
    }
  }

  /** Pending are the comparisons without an approving decision, rejected those with a declining one. */
  lemma ResolutionCounts(report: string, comparisons: seq<Comparison>, approvals: seq<Approval>)
    requires DistinctIds(approvals)
    ensures Resolve(report, comparisons, approvals) == Resolution(
        |Places(comparisons, c => Undecided(c, report, approvals), |comparisons|)|,
        |Places(comparisons, c => Declined(c, report, approvals), |comparisons|)|)
  {
    forall c: Comparison
      ensures var latest := Latest(report, approvals, |approvals|);
        && (Undecided(c, report, approvals) <==> Needed(c) && (c.id in latest ==> !latest[c.id].approved))
        && (Declined(c, report, approvals) <==> Needed(c) && c.id in latest && !latest[c.id].approved)
    {
      VerdictAt(c, report, approvals);
    }
    CountsPlaces(Latest(report, approvals, |approvals|), comparisons, |comparisons|,
                 c => Undecided(c, report, approvals), c => Declined(c, report, approvals));
  }
}
