/** One pass over the page on screen: tick every row the rules of one family
    select, press that family's button, and start over until the page is
    empty, nothing is left to tick, or the button has failed four times.
    Deleting and retrying run the same loop with different rules and a
    different button, so both are one method taking the action. */
module Convergence {
  import opened Rules
  import opened Morgue

  /** Why a pass stopped. */
  datatype Outcome =
    | EmptyPage      // the page showed no rows
    | NothingTicked  // the page showed rows, none of which the rules select
    | GaveUp         // the fourth submission that did not navigate

  /** Read every row on screen and tick the ones the rule t selects; ticked
      is how many were ticked. RunPass passes the rules of one action. */
  method Scan(t: Row -> bool, tableRows: seq<Row>) returns (marks: seq<bool>, ticked: nat)
    ensures MarksOf(t, tableRows, marks)
    ensures ticked == |tableRows| - |Keep(t, tableRows)|
    ensures ticked == 0 <==> CleanFrom(t, tableRows, 0)
  {
    marks := [];
    ticked := 0;
    for i := 0 to |tableRows|
      invariant MarksOf(t, tableRows[..i], marks)
      invariant ticked == i - |Keep(t, tableRows[..i])|
      invariant ticked == 0 <==> CleanFrom(t, tableRows[..i], 0)
    {
      var row := tableRows[i];
      assert tableRows[..i + 1][..i] == tableRows[..i];
      assert tableRows[..i + 1][i] == row;
      var tick := t(row);
      marks := marks + [tick];
      if tick {
        ticked := ticked + 1;
      }
    }
    assert tableRows[..|tableRows|] == tableRows;
  }

  /** What a pass on page p (pages of size rows) may do to the listing, from
      rows0 to rows: drop rows only t ticks and keep the others in order,
      leave every row before the page where it was, and leave clean every
      stretch that was clean, for any rule, from an index on the page or
      after it. */
  ghost predicate OnlyTicked(t: Row -> bool, p: nat, size: nat, rows0: seq<Row>, rows: seq<Row>)
    requires p >= 1
  {
    var lo := (p - 1) * size;
    && DropsOnly(t, rows0, rows)
    && (lo <= |rows0| ==> lo <= |rows| && rows[..lo] == rows0[..lo])
    && (|rows0| <= lo ==> rows == rows0)
    && (forall u: Row -> bool, i: nat :: lo <= i && CleanFrom(u, rows0, i) ==> CleanFrom(u, rows, i))
  }

  /** A successful submission on page p keeps OnlyTicked. */
  lemma PurgeKeepsOnlyTicked(t: Row -> bool, p: nat, size: nat, rows0: seq<Row>, rows: seq<Row>)
    requires p >= 1 && OnlyTicked(t, p, size, rows0, rows)
    ensures OnlyTicked(t, p, size, rows0, Purge(t, rows, p, size))
  {
    var lo := (p - 1) * size;
    var next := Purge(t, rows, p, size);
    PurgeKeeps(t, rows, p, size);
    PurgeDropsOnly(t, rows, p, size);
    DropsTrans(t, rows0, rows, next);
    forall u: Row -> bool, i: nat | lo <= i && CleanFrom(u, rows0, i)
      ensures CleanFrom(u, next, i)
    {
      PurgeStaysClean(t, u, rows, p, size, i);
    }
    if lo <= |rows0| {
      assert First(rows, p, size) == lo;
      assert next[..lo] == rows[..lo] == rows0[..lo];
    }
  }

  /** When a pass stops on a page with nothing to tick, and nothing was left
      to tick after the page when it began, nothing is left to tick from the
      page on. */
  lemma StopsClean(t: Row -> bool, p: nat, size: nat, rows0: seq<Row>, rows: seq<Row>)
    requires p >= 1 && OnlyTicked(t, p, size, rows0, rows)
    requires CleanFrom(t, Page(rows, p, size), 0) && CleanFrom(t, rows0, p * size)
    ensures CleanFrom(t, rows, (p - 1) * size)
  {
    assert (p - 1) * size <= p * size;
    PageClean(t, rows, p, size);
  }

  /** The submissions of one pass on page p with action a, and what they
      add up to: rows ticked and rows taken away. */
  ghost predicate Tallied(a: Action, p: nat, made: seq<Submission>, ticked: nat, removed: int)
  {
    && (forall e :: e in made ==> e.action == a && e.page == p && e.ticked > 0)
    && ticked == Ticked(made)
    && removed == Removed(made)
  }

  lemma TallyStep(a: Action, p: nat, made: seq<Submission>, ticked: nat, removed: int, e: Submission)
    requires Tallied(a, p, made, ticked, removed)
    requires e.action == a && e.page == p && e.ticked > 0
    ensures Failures(made + [e]) == Failures(made) + (if e.ok then 0 else 1)
    ensures Tallied(a, p, made + [e], ticked + e.ticked, removed + (if e.ok then e.ticked else 0))
  {
    assert (made + [e])[..|made|] == made;
  }

  /** The listing a pass with rule t on page p leaves after the submissions
      made, replayed from rows0: each that navigated purged the page, each
      that failed changed nothing. */
  ghost function Replay(t: Row -> bool, p: nat, size: nat, rows0: seq<Row>, made: seq<Submission>): seq<Row>
    requires p >= 1
    decreases |made|
  {
    if made == [] then rows0
    else
      var prev := Replay(t, p, size, rows0, made[..|made| - 1]);
      if made[|made| - 1].ok then Purge(t, prev, p, size) else prev
  }

  /** Each submission made ticked exactly the rows t ticks on page p of the
      listing it was made on, as Replay gives it. */
  ghost predicate TickedAsShown(t: Row -> bool, p: nat, size: nat, rows0: seq<Row>, made: seq<Submission>)
    requires p >= 1
    decreases |made|
  {
    made != [] ==>
      var init := made[..|made| - 1];
      && TickedAsShown(t, p, size, rows0, init)
      && made[|made| - 1].ticked == TickedOn(t, Replay(t, p, size, rows0, init), p, size)
  }

  /** One pass with rule t on page p took the listing from before to
      after: after is its submissions replayed, and each of them ticked what
      t ticks on the page it was shown. */
  ghost predicate PassReplayed(t: Row -> bool, p: nat, size: nat, before: seq<Row>, made: seq<Submission>,
                               after: seq<Row>)
  {
    && p >= 1
    && after == Replay(t, p, size, before, made)
    && TickedAsShown(t, p, size, before, made)
  }

  /** One more submission: Replay purges the page or not, and TickedAsShown
      asks the submission to tick what the page shows. */
  lemma ReplayStep(t: Row -> bool, p: nat, size: nat, rows0: seq<Row>, made: seq<Submission>, e: Submission)
    requires p >= 1
    ensures Replay(t, p, size, rows0, made + [e]) ==
      (if e.ok then Purge(t, Replay(t, p, size, rows0, made), p, size) else Replay(t, p, size, rows0, made))
    ensures TickedAsShown(t, p, size, rows0, made + [e]) <==>
      TickedAsShown(t, p, size, rows0, made) && e.ticked == TickedOn(t, Replay(t, p, size, rows0, made), p, size)
  {
    assert (made + [e])[..|made|] == made;
  }

  /** Submission k ticked the rows t ticks on the page after the k before it. */
  lemma {:induction false} TickedAt(t: Row -> bool, p: nat, size: nat, rows0: seq<Row>, made: seq<Submission>, k: nat)
    requires p >= 1 && TickedAsShown(t, p, size, rows0, made) && k < |made|
    ensures made[k].ticked == TickedOn(t, Replay(t, p, size, rows0, made[..k]), p, size)
    decreases |made|
  {
    var init := made[..|made| - 1];
    if k < |init| {
      TickedAt(t, p, size, rows0, init, k);
      assert init[..k] == made[..k];
    } else {
      assert made[..k] == init;
    }
  }

  /** A submission that failed changed nothing, so the next one ticks the
      same rows again, and count adds them a second time. */
  lemma CountedAgain(t: Row -> bool, p: nat, size: nat, rows0: seq<Row>, made: seq<Submission>, k: nat)
    requires p >= 1 && TickedAsShown(t, p, size, rows0, made)
    requires k + 1 < |made| && !made[k].ok
    ensures made[k + 1].ticked == made[k].ticked
  {
    TickedAt(t, p, size, rows0, made, k);
    TickedAt(t, p, size, rows0, made, k + 1);
    assert made[..k + 1] == made[..k] + [made[k]];
    ReplayStep(t, p, size, rows0, made[..k], made[k]);
  }

  /** Whatever the submissions, the replayed listing has lost only rows t
      ticks, as OnlyTicked says. */
  lemma {:induction false} ReplayOnlyTicked(t: Row -> bool, p: nat, size: nat, rows0: seq<Row>, made: seq<Submission>)
    requires p >= 1
    ensures OnlyTicked(t, p, size, rows0, Replay(t, p, size, rows0, made))
    decreases |made|
  {
    if made == [] {
      DropsNothing(t, rows0);
    } else {
      var init := made[..|made| - 1];
      ReplayOnlyTicked(t, p, size, rows0, init);
      if made[|made| - 1].ok {
        PurgeKeepsOnlyTicked(t, p, size, rows0, Replay(t, p, size, rows0, init));
      }
    }
  }

  /** How one round of a pass ended. */
  datatype Round = Empty | Clean | Submitted(ticked: nat, ok: bool)

  /** One round of a pass: read the page on screen, stop if it is empty or
      rule ticks nothing on it, else press the button of action a. */
  method RunRound(c: Console, a: Action, rule: Row -> bool) returns (r: Round)
    requires c.Valid()
    modifies c`rows, c`outcomes, c`log
    ensures c.Valid()
    ensures r == Empty <==> Page(old(c.rows), c.page, c.pageSize) == []
    ensures !r.Submitted? <==> CleanFrom(rule, Page(old(c.rows), c.page, c.pageSize), 0)
    ensures !r.Submitted? ==> c.rows == old(c.rows) && c.log == old(c.log) && c.outcomes == old(c.outcomes)
    ensures r.Submitted? ==>
      && r.ticked > 0
      && r.ticked == TickedOn(rule, old(c.rows), c.page, c.pageSize)
      && r.ok == Navigates(old(c.outcomes), 0)
      && c.outcomes == After(old(c.outcomes), 1)
      && c.log == old(c.log) + [Submission(a, c.page, r.ticked, r.ok)]
      && c.rows == (if r.ok then Purge(rule, old(c.rows), c.page, c.pageSize) else old(c.rows))
      && |Purge(rule, old(c.rows), c.page, c.pageSize)| == |old(c.rows)| - r.ticked
  {
    var tableRows := c.Listing();
    if |tableRows| == 0 {
      return Empty;
    }
    var marks, ticked := Scan(rule, tableRows);
    if ticked == 0 {
      return Clean;
    }
    RemoveIsPurge(rule, c.rows, c.page, c.pageSize, marks);
    UntickedIsKeep(rule, tableRows, marks);
    var ok := c.Submit(a, marks);
    r := Submitted(ticked, ok);
  }

  /** Where a pass on page p stands after the submissions made, from the
      listing rows0 and the outcomes outcomes0 it started with; rows and
      outcomes are what is left. */
  ghost predicate PassSoFar(a: Action, rule: Row -> bool, p: nat, size: nat,
                            rows0: seq<Row>, outcomes0: seq<bool>, made: seq<Submission>,
                            count: nat, rows: seq<Row>, outcomes: seq<bool>)
    requires p >= 1
  {
    // every submission was made on page p with action a and ticked rows;
    // count is the rows ticked, failed submissions included, and the rows
    // taken away are those of the submissions that navigated
    && Tallied(a, p, made, count, |rows0| - |rows|)
    // each submission took the next outcome in turn, so with no failing
    // outcome ahead no submission failed
    && Follows(outcomes0, made, outcomes)
    && (false !in outcomes0 ==> Failures(made) == 0)
    // a pass submits only when its page had something to tick, and until
    // then it has changed nothing
    && (made == [] ==> rows == rows0 && outcomes == outcomes0)
    && (made != [] ==> !CleanFrom(rule, Page(rows0, p, size), 0))
    // the listing is what the submissions leave, replayed from rows0, and
    // each ticked exactly the rows the rule ticks on the page it was shown
    && rows == Replay(rule, p, size, rows0, made)
    && TickedAsShown(rule, p, size, rows0, made)
  }

  /** One more submission of ticked rows, taking the next outcome, keeps
      PassSoFar and counts one more failure when it does not navigate. */
  lemma PassStep(a: Action, rule: Row -> bool, p: nat, size: nat,
                 rows0: seq<Row>, outcomes0: seq<bool>, made: seq<Submission>,
                 count: nat, before: seq<Row>, outcomesBefore: seq<bool>,
                 ticked: nat, ok: bool, rows: seq<Row>, outcomes: seq<bool>)
    requires p >= 1 && Failures(made) < 4
    requires PassSoFar(a, rule, p, size, rows0, outcomes0, made, count, before, outcomesBefore)
    requires ticked > 0 && !CleanFrom(rule, Page(before, p, size), 0)
    requires ticked == TickedOn(rule, before, p, size)
    requires ok == Navigates(outcomesBefore, 0) && outcomes == After(outcomesBefore, 1)
    requires rows == (if ok then Purge(rule, before, p, size) else before)
    requires |Purge(rule, before, p, size)| == |before| - ticked
    ensures Failures(made + [Submission(a, p, ticked, ok)]) == Failures(made) + (if ok then 0 else 1)
    ensures PassSoFar(a, rule, p, size, rows0, outcomes0, made + [Submission(a, p, ticked, ok)],
                      count + ticked, rows, outcomes)
  {
    var e := Submission(a, p, ticked, ok);
    TallyStep(a, p, made, count, |rows0| - |before|, e);
    ReplayStep(rule, p, size, rows0, made, e);
    FollowsJoin(outcomes0, made, outcomesBefore, [e], outcomes);
  }

  /** One round of a pass that stands at PassSoFar with the submissions
      made0 logged after log0, and where the pass then stands: count and
      made take in the round's submission, if it made one. */
  method Advance(c: Console, a: Action, rule: Row -> bool, ghost rows0: seq<Row>, ghost outcomes0: seq<bool>,
                 ghost log0: seq<Submission>, ghost made0: seq<Submission>, count0: nat)
    returns (r: Round, count: nat, ghost made: seq<Submission>)
    requires c.Valid() && Failures(made0) <= 3 && c.log == log0 + made0
    requires PassSoFar(a, rule, c.page, c.pageSize, rows0, outcomes0, made0, count0, c.rows, c.outcomes)
    modifies c`rows, c`outcomes, c`log
    ensures c.Valid() && c.log == log0 + made
    ensures PassSoFar(a, rule, c.page, c.pageSize, rows0, outcomes0, made, count, c.rows, c.outcomes)
    ensures !r.Submitted? ==>
      && made == made0 && c.rows == old(c.rows)
      && (r == Empty <==> Page(c.rows, c.page, c.pageSize) == [])
      && CleanFrom(rule, Page(c.rows, c.page, c.pageSize), 0)
    ensures r.Submitted? ==>
      && Failures(made) == Failures(made0) + (if r.ok then 0 else 1)
      && (r.ok ==> |c.rows| < |old(c.rows)|)
      && (!r.ok ==> made != [] && !made[|made| - 1].ok && Page(c.rows, c.page, c.pageSize) != [])
  {
    ghost var before, outcomesBefore := c.rows, c.outcomes;
    r := RunRound(c, a, rule);
    if r.Submitted? {
      var e := Submission(a, c.page, r.ticked, r.ok);
      PassStep(a, rule, c.page, c.pageSize, rows0, outcomes0, made0, count0, before, outcomesBefore,
               r.ticked, r.ok, c.rows, c.outcomes);
      assert log0 + made0 + [e] == log0 + (made0 + [e]);
      count, made := count0 + r.ticked, made0 + [e];
    } else {
      count, made := count0, made0;
    }
  }

  /** Run a pass on the page on screen: rule ticks the rows, the button of
      action a submits them (the discard rules with the delete button, or
      the retry rules with the retry button, as TickOf pairs them).  count
      is how many rows were ticked over all submissions, failed ones
      included; made lists those submissions. */
  method RunPass(c: Console, a: Action, rule: Row -> bool) returns (count: nat, outcome: Outcome, ghost made: seq<Submission>)
    requires c.Valid()
    modifies c`rows, c`outcomes, c`log
    ensures c.Valid()
    // every submission of the pass is recorded, after the earlier ones
    ensures c.log == old(c.log) + made
    // the tally, the outcomes taken and the listing left, as PassSoFar says
    ensures PassSoFar(a, rule, c.page, c.pageSize, old(c.rows), old(c.outcomes), made, count, c.rows, c.outcomes)
    // only rows the rule ticks have disappeared, the others are in order
    ensures OnlyTicked(rule, c.page, c.pageSize, old(c.rows), c.rows)
    // the fourth failure ends the pass, and only it does
    ensures Failures(made) <= 4
    ensures outcome == GaveUp <==> Failures(made) == 4
    ensures outcome == GaveUp ==> !made[|made| - 1].ok
    // with no failing outcome ahead, the pass does not give up
    ensures false !in old(c.outcomes) ==> outcome != GaveUp && false !in c.outcomes
    // the pass submits nothing exactly when its page has nothing to tick
    ensures made == [] <==> CleanFrom(rule, Page(old(c.rows), c.page, c.pageSize), 0)
    // how it stopped
    ensures outcome == EmptyPage <==> Page(c.rows, c.page, c.pageSize) == []
    // unless it gives up, the pass ends with nothing on its page to tick
    ensures outcome != GaveUp ==> CleanFrom(rule, Page(c.rows, c.page, c.pageSize), 0)
  {
    var r;
    r, count, made := Repeat(c, a, rule);
    outcome := if r == Empty then EmptyPage else if r == Clean then NothingTicked else GaveUp;
    ReplayOnlyTicked(rule, c.page, c.pageSize, old(c.rows), made);
  }

  /** The rounds of a pass, until one finds nothing to submit or the fourth
      submission fails; r is the last round. */
  method Repeat(c: Console, a: Action, rule: Row -> bool) returns (r: Round, count: nat, ghost made: seq<Submission>)
    requires c.Valid()
    modifies c`rows, c`outcomes, c`log
    ensures c.Valid()
    ensures c.log == old(c.log) + made
    ensures PassSoFar(a, rule, c.page, c.pageSize, old(c.rows), old(c.outcomes), made, count, c.rows, c.outcomes)
    ensures !r.Submitted? ==>
      && Failures(made) <= 3
      && (r == Empty <==> Page(c.rows, c.page, c.pageSize) == [])
      && CleanFrom(rule, Page(c.rows, c.page, c.pageSize), 0)
    ensures r.Submitted? ==>
      && Failures(made) == 4 && made != [] && !made[|made| - 1].ok
      && Page(c.rows, c.page, c.pageSize) != []
  {
    count, made := 0, [];
    FollowsNothing(c.outcomes);
    var rescue := 0;
    r := Clean;
    while true
      invariant c.Valid()
      invariant c.log == old(c.log) + made
      invariant rescue == Failures(made) && rescue <= 3
      invariant PassSoFar(a, rule, c.page, c.pageSize, old(c.rows), old(c.outcomes), made, count, c.rows, c.outcomes)
      decreases 3 - rescue, |c.rows|
    {
      r, count, made := Advance(c, a, rule, old(c.rows), old(c.outcomes), old(c.log), made, count);
      if !r.Submitted? || (!r.ok && rescue == 3) {
        break;
      }
      if !r.ok {
        rescue := rescue + 1;
      }
    }
  }
}
