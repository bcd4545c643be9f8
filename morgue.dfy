/** The dead-job console as the triage loop sees it: the morgue listing, split
    into pages, one bulk form that deletes or retries the ticked rows of the
    page on screen, and a record of every submission of that form. */
module Morgue {
  import opened Rules

  /** One row of the listing as the scanner reads it: the text of the job
      column and of the last (error) column, both already trimmed. */
  datatype Row = Row(job: string, error: string)

  /** The rows the pass of action a ticks. The list operations below take
      any such predicate t, since they do not depend on the rules. */
  function TickOf(a: Action): Row -> bool
  {
    (r: Row) => Selects(a, r.job, r.error)
  }

  // ---------------------------------------------------------------------
  // What a pass leaves behind.

  /** The rows of s that t does not tick, in their order. */
  function Keep(t: Row -> bool, s: seq<Row>): (k: seq<Row>)
    ensures |k| <= |s|
  {
    if s == [] then []
    else Keep(t, s[..|s| - 1]) + (if t(s[|s| - 1]) then [] else [s[|s| - 1]])
  }

  /** No row of s from index i on is ticked by t. */
  ghost predicate CleanFrom(t: Row -> bool, s: seq<Row>, i: nat)
  {
    forall j :: i <= j < |s| ==> !t(s[j])
  }

  /** Keep drops exactly the ticked rows: the result is clean, and any clean
      stretch of the input stays clean, no earlier than it was. */
  lemma {:induction false} KeepCleans(t: Row -> bool, u: Row -> bool, s: seq<Row>, i: nat)
    ensures CleanFrom(t, Keep(t, s), 0)
    ensures CleanFrom(u, s, i) ==> CleanFrom(u, Keep(t, s), i)
  {
    if s != [] {
      var init, last := s[..|s| - 1], s[|s| - 1];
      KeepCleans(t, u, init, i);
      assert Keep(t, s) == Keep(t, init) + (if t(last) then [] else [last]);
      if CleanFrom(u, s, i) {
        assert CleanFrom(u, init, i);
        var k := Keep(t, s);
        forall j | i <= j < |k|
          ensures !u(k[j])
        {
          if j < |Keep(t, init)| {
            assert k[j] == Keep(t, init)[j];
          } else {
            // the last row survives at index j <= |s| - 1
            assert k[j] == last && i <= |s| - 1;
          }
        }
      }
    }
  }

  lemma {:induction false} KeepAppend(t: Row -> bool, s: seq<Row>, v: seq<Row>)
    ensures Keep(t, s + v) == Keep(t, s) + Keep(t, v)
  {
    if v != [] {
      var init := v[..|v| - 1];
      assert (s + v)[..|s + v| - 1] == s + init;
      KeepAppend(t, s, init);
    } else {
      assert s + v == s;
    }
  }

  /** A second pass with the same rules over what the first one left ticks
      nothing. */
  lemma {:induction false} KeepTwice(t: Row -> bool, s: seq<Row>)
    ensures Keep(t, Keep(t, s)) == Keep(t, s)
  {
    if s != [] {
      var init, last := s[..|s| - 1], s[|s| - 1];
      KeepTwice(t, init);
      KeepAppend(t, Keep(t, init), if t(last) then [] else [last]);
      if !t(last) {
        assert [last][..0] == [];
      }
    }
  }

  /** The rows both passes leave alone do not depend on which pass runs first. */
  lemma {:induction false} KeepCommutes(t: Row -> bool, u: Row -> bool, s: seq<Row>)
    ensures Keep(t, Keep(u, s)) == Keep(u, Keep(t, s))
  {
    if s != [] {
      var init, last := s[..|s| - 1], s[|s| - 1];
      KeepCommutes(t, u, init);
      KeepAppend(t, Keep(u, init), if u(last) then [] else [last]);
      KeepAppend(u, Keep(t, init), if t(last) then [] else [last]);
      assert [last][..0] == [];
    }
  }

  /** r is s with some rows t ticks dropped: every other row of s is in r,
      and the rows of r keep their order in s. */
  ghost predicate DropsOnly(t: Row -> bool, s: seq<Row>, r: seq<Row>)
    decreases |s|
  {
    if s == [] then r == []
    else
      var init, last := s[..|s| - 1], s[|s| - 1];
      || (t(last) && DropsOnly(t, init, r))
      || (r != [] && r[|r| - 1] == last && DropsOnly(t, init, r[..|r| - 1]))
  }

  lemma {:induction false} DropsNothing(t: Row -> bool, s: seq<Row>)
    ensures DropsOnly(t, s, s)
  {
    if s != [] {
      DropsNothing(t, s[..|s| - 1]);
    }
  }

  /** Keep drops only rows t ticks. */
  lemma {:induction false} KeepDropsOnly(t: Row -> bool, s: seq<Row>)
    ensures DropsOnly(t, s, Keep(t, s))
  {
    if s != [] {
      var init, last := s[..|s| - 1], s[|s| - 1];
      KeepDropsOnly(t, init);
      var k := Keep(t, s);
      if t(last) {
        assert k == Keep(t, init);
      } else {
        assert k == Keep(t, init) + [last];
        assert k[..|k| - 1] == Keep(t, init);
      }
    }
  }

  /** Dropping only rows t ticks leaves the rows t does not tick as they
      were, in order. */
  lemma {:induction false} DropsKeep(t: Row -> bool, s: seq<Row>, r: seq<Row>)
    requires DropsOnly(t, s, r)
    ensures Keep(t, r) == Keep(t, s)
    decreases |s|
  {
    if s != [] {
      var init, last := s[..|s| - 1], s[|s| - 1];
      if t(last) && DropsOnly(t, init, r) {
        DropsKeep(t, init, r);
      } else {
        DropsKeep(t, init, r[..|r| - 1]);
      }
    }
  }

  /** Dropping ticked rows from two stretches drops ticked rows from both
      together. */
  lemma {:induction false} DropsJoin(t: Row -> bool, a: seq<Row>, b: seq<Row>, c: seq<Row>, d: seq<Row>)
    requires DropsOnly(t, a, b) && DropsOnly(t, c, d)
    ensures DropsOnly(t, a + c, b + d)
    decreases |c|
  {
    if c == [] {
      assert a + c == a && b + d == b;
    } else {
      var init, last := c[..|c| - 1], c[|c| - 1];
      assert (a + c)[..|a + c| - 1] == a + init;
      if t(last) && DropsOnly(t, init, d) {
        DropsJoin(t, a, b, init, d);
      } else {
        var d0 := d[..|d| - 1];
        DropsJoin(t, a, b, init, d0);
        assert (b + d)[..|b + d| - 1] == b + d0;
      }
    }
  }

  /** Dropping ticked rows twice drops ticked rows. */
  lemma {:induction false} DropsTrans(t: Row -> bool, a: seq<Row>, b: seq<Row>, c: seq<Row>)
    requires DropsOnly(t, a, b) && DropsOnly(t, b, c)
    ensures DropsOnly(t, a, c)
    decreases |a|
  {
    if a != [] {
      var init, last := a[..|a| - 1], a[|a| - 1];
      if t(last) && DropsOnly(t, init, b) {
        DropsTrans(t, init, b, c);
      } else {
        var b0 := b[..|b| - 1];
        if t(last) && DropsOnly(t, b0, c) {
          DropsTrans(t, init, b0, c);
        } else {
          DropsTrans(t, init, b0, c[..|c| - 1]);
        }
      }
    }
  }

  // ---------------------------------------------------------------------
  // Pages and the bulk form.

  function Min(x: int, y: int): int
  {
    if x <= y then x else y
  }

  /** Index of the first row of page p (pages are numbered from 1), clipped to
      the listing. */
  function First(s: seq<Row>, p: nat, size: nat): (i: nat)
    requires p >= 1
    ensures i <= |s|
  {
    Min((p - 1) * size, |s|)
  }

  /** Index just past the last row of page p, clipped to the listing. */
  function Past(s: seq<Row>, p: nat, size: nat): (i: nat)
    requires p >= 1
    ensures First(s, p, size) <= i <= |s|
  {
    Min(p * size, |s|)
  }

  /** The rows page p shows. */
  function Page(s: seq<Row>, p: nat, size: nat): seq<Row>
    requires p >= 1
  {
    s[First(s, p, size)..Past(s, p, size)]
  }

  /** The rows whose checkbox is not ticked. */
  function Unticked(s: seq<Row>, marks: seq<bool>): (u: seq<Row>)
    requires |marks| == |s|
    ensures |u| == |s| - CountTicked(marks)
  {
    if s == [] then []
    else Unticked(s[..|s| - 1], marks[..|s| - 1]) + (if marks[|s| - 1] then [] else [s[|s| - 1]])
  }

  /** How many checkboxes are ticked. */
  function CountTicked(marks: seq<bool>): (n: nat)
    ensures n <= |marks|
  {
    if marks == [] then 0
    else CountTicked(marks[..|marks| - 1]) + (if marks[|marks| - 1] then 1 else 0)
  }

  /** The listing after the server has deleted or retried the ticked rows of
      page p: rows on other pages stay, later rows move up. */
  function Remove(s: seq<Row>, p: nat, size: nat, marks: seq<bool>): (r: seq<Row>)
    requires p >= 1 && |marks| == |Page(s, p, size)|
    ensures |r| == |s| - CountTicked(marks)
  {
    s[..First(s, p, size)] + Unticked(Page(s, p, size), marks) + s[Past(s, p, size)..]
  }

  /** The checkboxes ticked are those of the rows t ticks. */
  ghost predicate MarksOf(t: Row -> bool, s: seq<Row>, marks: seq<bool>)
  {
    |marks| == |s| && forall j :: 0 <= j < |s| ==> marks[j] == t(s[j])
  }

  /** Submitting the marks of a pass removes exactly the rows the pass ticks,
      and as many rows as it ticked. */
  lemma {:induction false} UntickedIsKeep(t: Row -> bool, s: seq<Row>, marks: seq<bool>)
    requires MarksOf(t, s, marks)
    ensures Unticked(s, marks) == Keep(t, s)
    ensures CountTicked(marks) == |s| - |Keep(t, s)|
  {
    if s != [] {
      UntickedIsKeep(t, s[..|s| - 1], marks[..|s| - 1]);
    }
  }

  /** How many rows of page p t ticks. */
  function TickedOn(t: Row -> bool, s: seq<Row>, p: nat, size: nat): (n: nat)
    requires p >= 1
    ensures n <= |Page(s, p, size)|
  {
    |Page(s, p, size)| - |Keep(t, Page(s, p, size))|
  }

  /** One successful submission, on page p, of the rows t ticks there. */
  function Purge(t: Row -> bool, s: seq<Row>, p: nat, size: nat): (r: seq<Row>)
    requires p >= 1
    ensures |r| == |s| - TickedOn(t, s, p, size)
  {
    s[..First(s, p, size)] + Keep(t, Page(s, p, size)) + s[Past(s, p, size)..]
  }

  /** What a successful submission keeps: every row t does not tick (in
      order) and every row before the page; it removes as many rows as t
      ticks on the page. */
  lemma PurgeKeeps(t: Row -> bool, s: seq<Row>, p: nat, size: nat)
    requires p >= 1
    ensures Keep(t, Purge(t, s, p, size)) == Keep(t, s)
    ensures |Purge(t, s, p, size)| == |s| - (|Page(s, p, size)| - |Keep(t, Page(s, p, size))|)
    ensures First(s, p, size) <= |Purge(t, s, p, size)|
    ensures Purge(t, s, p, size)[..First(s, p, size)] == s[..First(s, p, size)]
  {
    var lo, hi := First(s, p, size), Past(s, p, size);
    var w := Page(s, p, size);
    assert s == s[..lo] + w + s[hi..];
    KeepAppend(t, s[..lo] + w, s[hi..]);
    KeepAppend(t, s[..lo], w);
    KeepAppend(t, s[..lo] + Keep(t, w), s[hi..]);
    KeepAppend(t, s[..lo], Keep(t, w));
    KeepTwice(t, w);
  }

  /** A successful submission drops only rows t ticks. */
  lemma PurgeDropsOnly(t: Row -> bool, s: seq<Row>, p: nat, size: nat)
    requires p >= 1
    ensures DropsOnly(t, s, Purge(t, s, p, size))
  {
    var lo, hi := First(s, p, size), Past(s, p, size);
    var w := Page(s, p, size);
    assert s == s[..lo] + w + s[hi..];
    DropsNothing(t, s[..lo]);
    DropsNothing(t, s[hi..]);
    KeepDropsOnly(t, w);
    DropsJoin(t, s[..lo], s[..lo], w, Keep(t, w));
    DropsJoin(t, s[..lo] + w, s[..lo] + Keep(t, w), s[hi..], s[hi..]);
  }

  /** Submitting the marks of t on page p is the purge of page p by t, and
      takes away as many rows as were ticked. */
  lemma RemoveIsPurge(t: Row -> bool, s: seq<Row>, p: nat, size: nat, marks: seq<bool>)
    requires p >= 1 && MarksOf(t, Page(s, p, size), marks)
    ensures Remove(s, p, size, marks) == Purge(t, s, p, size)
    ensures |Purge(t, s, p, size)| == |s| - CountTicked(marks)
  {
    UntickedIsKeep(t, Page(s, p, size), marks);
    PurgeKeeps(t, s, p, size);
  }

  /** Three stretches joined are clean from i when each is clean from the
      index i falls on in it. */
  lemma CleanJoin(u: Row -> bool, x: seq<Row>, k: seq<Row>, y: seq<Row>, i: nat, d: nat)
    requires |x| <= i && CleanFrom(u, k, i - |x|) && CleanFrom(u, y, d)
    requires d == 0 || d + |x| + |k| <= i
    ensures CleanFrom(u, x + k + y, i)
  {
    var v := x + k + y;
    forall j | i <= j < |v|
      ensures !u(v[j])
    {
      if j < |x| + |k| {
        assert v[j] == k[j - |x|];
      } else {
        assert v[j] == y[j - |x| - |k|];
      }
    }
  }

  /** A successful submission on page p leaves clean every stretch that was
      clean from an index on the page or after it. */
  lemma PurgeStaysClean(t: Row -> bool, u: Row -> bool, s: seq<Row>, p: nat, size: nat, i: nat)
    requires p >= 1 && (p - 1) * size <= i && CleanFrom(u, s, i)
    ensures CleanFrom(u, Purge(t, s, p, size), i)
  {
    var lo, hi := First(s, p, size), Past(s, p, size);
    var w := Page(s, p, size);
    // the rows before the page are never in range
    assert CleanFrom(u, w, i - lo) by {
      forall j | i - lo <= j < |w| ensures !u(w[j]) {
        assert w[j] == s[lo + j];
      }
    }
    KeepCleans(t, u, w, i - lo);
    var d := if i <= hi then 0 else i - hi;
    assert CleanFrom(u, s[hi..], d) by {
      forall j | d <= j < |s| - hi ensures !u(s[hi..][j]) {
        assert s[hi..][j] == s[hi + j];
      }
    }
    CleanJoin(u, s[..lo], Keep(t, w), s[hi..], i, d);
  }

  /** A page with nothing to tick, followed by rows with nothing to tick,
      means nothing to tick from the page on. */
  lemma PageClean(t: Row -> bool, s: seq<Row>, p: nat, size: nat)
    requires p >= 1 && CleanFrom(t, Page(s, p, size), 0) && CleanFrom(t, s, p * size)
    ensures CleanFrom(t, s, (p - 1) * size)
  {
    var lo := First(s, p, size);
    forall j | (p - 1) * size <= j < |s| && j < p * size
      ensures !t(s[j])
    {
      assert s[j] == Page(s, p, size)[j - lo];
    }
  }

  // ---------------------------------------------------------------------
  // The record of submissions.

  /** One submission of the bulk form: which button, on which page, how many
      rows were ticked, and whether the page navigated afterwards. */
  datatype Submission = Submission(action: Action, page: nat, ticked: nat, ok: bool)

  /** How many submissions failed. */
  function Failures(log: seq<Submission>): nat
  {
    if log == [] then 0
    else Failures(log[..|log| - 1]) + (if log[|log| - 1].ok then 0 else 1)
  }

  /** How many rows were ticked over all submissions. */
  function Ticked(log: seq<Submission>): nat
  {
    if log == [] then 0
    else Ticked(log[..|log| - 1]) + log[|log| - 1].ticked
  }

  /** How many rows successful submissions took away. */
  function Removed(log: seq<Submission>): nat
  {
    if log == [] then 0
    else Removed(log[..|log| - 1]) + (if log[|log| - 1].ok then log[|log| - 1].ticked else 0)
  }

  /** Rows ticked for a failed submission are counted but not removed: the
      count exceeds the removals unless no ticked submission failed. */
  lemma {:induction false} CountedAtLeastRemoved(log: seq<Submission>)
    ensures Removed(log) <= Ticked(log)
    ensures Removed(log) == Ticked(log) <==> forall e :: e in log && !e.ok ==> e.ticked == 0
  {
    if log != [] {
      var init := log[..|log| - 1];
      CountedAtLeastRemoved(init);
      assert forall e :: e in log <==> e in init || e == log[|log| - 1];
    }
  }

  // ---------------------------------------------------------------------
  // The outcomes of submissions.

  /** Whether the submission k places ahead navigates: each listed outcome
      in turn, and success once the list has run out. */
  function Navigates(outcomes: seq<bool>, k: nat): bool
  {
    k >= |outcomes| || outcomes[k]
  }

  /** The outcomes still to come after n more submissions. */
  function After(outcomes: seq<bool>, n: nat): (rest: seq<bool>)
    ensures |rest| == if n >= |outcomes| then 0 else |outcomes| - n
    ensures false !in outcomes ==> false !in rest
  {
    if n >= |outcomes| then [] else outcomes[n..]
  }

  /** The submission k places ahead of what is left after n more takes the
      outcome n + k places ahead. */
  lemma AfterNavigates(outcomes: seq<bool>, n: nat, k: nat)
    ensures Navigates(After(outcomes, n), k) == Navigates(outcomes, n + k)
  {
  }

  /** The submissions made took their outcomes, in order, from outcomes0,
      and outcomes is what is left of it. */
  ghost predicate Follows(outcomes0: seq<bool>, made: seq<Submission>, outcomes: seq<bool>)
  {
    && (forall k :: 0 <= k < |made| ==> made[k].ok == Navigates(outcomes0, k))
    && outcomes == After(outcomes0, |made|)
  }

  lemma AfterAfter(outcomes: seq<bool>, n: nat, m: nat)
    ensures After(After(outcomes, n), m) == After(outcomes, n + m)
  {
  }

  /** Submissions made one run after another take their outcomes one after
      another. */
  lemma FollowsJoin(o0: seq<bool>, m1: seq<Submission>, o1: seq<bool>, m2: seq<Submission>, o2: seq<bool>)
    requires Follows(o0, m1, o1) && Follows(o1, m2, o2)
    ensures Follows(o0, m1 + m2, o2)
  {
    AfterAfter(o0, |m1|, |m2|);
    forall k | |m1| <= k < |m1| + |m2|
      ensures (m1 + m2)[k].ok == Navigates(o0, k)
    {
      assert (m1 + m2)[k] == m2[k - |m1|];
      AfterNavigates(o0, |m1|, k - |m1|);
    }
  }

  /** Nothing made, nothing used. */
  lemma FollowsNothing(o: seq<bool>)
    ensures Follows(o, [], o)
  {
    assert o == [] || o[0..] == o;
  }

  /** The live console session: the whole morgue listing in display order,
      the page on screen, the outcomes the next submissions will have, and the
      submissions made so far. */
  class Console {
    var rows: seq<Row>
    var page: nat
    const pageSize: nat
    /** Whether each coming submission navigates (true) or times out
        (false); once this runs out, submissions succeed. */
    var outcomes: seq<bool>
    var log: seq<Submission>

    ghost predicate Valid()
      reads this
    {
      page >= 1 && pageSize >= 1
    }

    /** The rows on screen. */
    function Listing(): seq<Row>
      reads this
      requires Valid()
    {
      Page(rows, page, pageSize)
    }

    constructor (rows: seq<Row>, pageSize: nat, outcomes: seq<bool>)
      requires pageSize >= 1
      ensures Valid()
      ensures this.rows == rows && this.pageSize == pageSize && this.outcomes == outcomes
      ensures page == 1 && log == []
    {
      this.rows := rows;
      this.page := 1;
      this.pageSize := pageSize;
      this.outcomes := outcomes;
      this.log := [];
    }

    /** Navigate to page p of the listing. */
    method Visit(p: nat)
      requires Valid() && p >= 1
      modifies this`page
      ensures Valid() && page == p
    {
      page := p;
    }

    /** Press the delete or retry button of the bulk form with the given
        checkboxes ticked on the page on screen. */
    method Submit(a: Action, marks: seq<bool>) returns (ok: bool)
      requires Valid() && |marks| == |Listing()|
      modifies this`rows, this`outcomes, this`log
      ensures ok == Navigates(old(outcomes), 0)
      ensures outcomes == After(old(outcomes), 1)
      ensures log == old(log) + [Submission(a, page, CountTicked(marks), ok)]
      ensures rows == if ok then Remove(old(rows), page, pageSize, marks) else old(rows)
    {
      ok := outcomes == [] || outcomes[0];
      if outcomes != [] {
        outcomes := outcomes[1..];
      }
      log := log + [Submission(a, page, CountTicked(marks), ok)];
      if ok {
        rows := Remove(rows, page, pageSize, marks);
      }
    }
  }
}
