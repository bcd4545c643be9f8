/** The sweep: open the morgue, follow the pagination's last link to learn
    the number of the last page, then visit every page from the last down to
    the first and run the delete pass and the retry pass on each. */
module Walk {
  import opened Rules
  import opened Morgue
  import opened Convergence

  // ---------------------------------------------------------------------
  // Page numbers in addresses.

  predicate IsDigit(ch: char)
  {
    '0' <= ch <= '9'
  }

  predicate AllDigits(s: string)
  {
    forall k :: 0 <= k < |s| ==> IsDigit(s[k])
  }

  /** The number a string of decimal digits denotes, as parseInt reads it
      (leading zeros allowed). */
  function Value(ds: string): nat
    requires AllDigits(ds)
  {
    if ds == [] then 0
    else Value(ds[..|ds| - 1]) * 10 + (ds[|ds| - 1] as int - '0' as int)
  }

  /** n in decimal, as a template literal prints it. */
  function Decimal(n: nat): (ds: string)
    ensures ds != [] && AllDigits(ds)
  {
    (if n < 10 then "" else Decimal(n / 10)) + [('0' as int + n % 10) as char]
  }

  /** Reading back a printed number gives the number. */
  lemma {:induction false} ValueOfDecimal(n: nat)
    ensures Value(Decimal(n)) == n
  {
    var ds := Decimal(n);
    if n >= 10 {
      ValueOfDecimal(n / 10);
      assert ds[..|ds| - 1] == Decimal(n / 10);
    } else {
      assert ds[..|ds| - 1] == "";
    }
  }

  /** How many characters at the end of s are digits. */
  function TrailingDigits(s: string): (d: nat)
    ensures d <= |s|
    ensures forall k :: |s| - d <= k < |s| ==> IsDigit(s[k])
    ensures d < |s| ==> !IsDigit(s[|s| - d - 1])
  {
    if s == [] || !IsDigit(s[|s| - 1]) then 0
    else TrailingDigits(s[..|s| - 1]) + 1
  }

  /** The number the pattern page=(\d+)$ captures in url, read by parseInt;
      None when the pattern does not match.  Since '=' is not a digit, the
      capture can only be the whole run of digits ending the address. */
  function PageParam(url: string): Option<nat>
  {
    var d := TrailingDigits(url);
    if 0 < d && d + 5 <= |url| && url[|url| - d - 5..|url| - d] == "page=" then
      Some(Value(url[|url| - d..]))
    else
      None
  }

  /** An address ending in page= and digits is matched, and its number read. */
  lemma PageParamFinds(pre: string, ds: string)
    requires ds != [] && AllDigits(ds)
    ensures PageParam(pre + "page=" + ds) == Some(Value(ds))
  {
    var url := pre + "page=" + ds;
    TrailingDigitsAfter(pre + "page=", ds);
    assert url[|url| - |ds|..] == ds;
    assert url[|url| - |ds| - 5..|url| - |ds|] == "page=";
  }

  lemma {:induction false} TrailingDigitsAfter(x: string, ds: string)
    requires x != [] && !IsDigit(x[|x| - 1]) && AllDigits(ds)
    ensures TrailingDigits(x + ds) == |ds|
  {
    if ds == [] {
      assert x + ds == x;
    } else {
      assert (x + ds)[..|x + ds| - 1] == x + ds[..|ds| - 1];
      TrailingDigitsAfter(x, ds[..|ds| - 1]);
    }
  }

  /** url has page= at index k, followed by a non-empty run of digits up to
      its end. */
  predicate PageAt(url: string, k: nat)
  {
    k + 5 < |url| && url[k..k + 5] == "page=" && AllDigits(url[k + 5..])
  }

  /** Every address the pattern matches has that shape, and the result is
      the value of those digits. */
  lemma PageParamMatches(url: string)
    requires PageParam(url).Some?
    ensures exists k: nat :: PageAt(url, k) && PageParam(url) == Some(Value(url[k + 5..]))
  {
    var d := TrailingDigits(url);
    var k := |url| - d - 5;
    assert PageAt(url, k);
  }

  /** The address of page n of the morgue on the given host. */
  function PageUrl(domain: string, n: nat): string
  {
    "https://" + domain + "/sidekiq/morgue?page=" + Decimal(n)
  }

  /** The address the sweep builds for page n reads back as n. */
  lemma PageUrlRoundTrip(domain: string, n: nat)
    ensures PageParam(PageUrl(domain, n)) == Some(n)
  {
    assert PageUrl(domain, n) == ("https://" + domain + "/sidekiq/morgue?") + "page=" + Decimal(n);
    PageParamFinds("https://" + domain + "/sidekiq/morgue?", Decimal(n));
    ValueOfDecimal(n);
  }

  // ---------------------------------------------------------------------
  // The last page.

  /** What the console's pagination offers on the first page: no pagination
      at all, a pagination without a last link, or a last link that leads
      to the given address. */
  datatype Pager = NoPagination | NoLastLink | LastLink(target: string)

  /** The page the sweep starts from: 1 unless there is a last link, else the
      number its address ends in, or None when it ends in none. */
  function LastPageNumber(p: Pager): Option<nat>
  {
    if p.LastLink? then PageParam(p.target) else Some(1)
  }

  /** A last link that leads to a page address gives that page's number. */
  lemma LastLinkToPage(domain: string, n: nat)
    ensures LastPageNumber(LastLink(PageUrl(domain, n))) == Some(n)
  {
    PageUrlRoundTrip(domain, n);
  }

  // ---------------------------------------------------------------------
  // The order of visits.

  /** One pass of the sweep: a page and the action run on it. */
  datatype Step = Step(page: nat, action: Action)

  /** The passes a sweep that starts on page n makes on pages n down to
      p + 1, in order: delete then retry on each page. */
  function Visits(n: nat, p: nat): (v: seq<Step>)
    ensures |v| == if n <= p then 0 else 2 * (n - p)
    decreases n - p
  {
    if n <= p then [] else Visits(n, p + 1) + [Step(p + 1, Delete), Step(p + 1, Retry)]
  }

  /** Pass k of a sweep from page n runs on page n - k / 2, deleting on even
      k and retrying on odd k. */
  lemma {:induction false} VisitsAt(n: nat, p: nat)
    requires p <= n
    ensures |Visits(n, p)| == 2 * (n - p)
    ensures forall k :: 0 <= k < 2 * (n - p) ==>
      Visits(n, p)[k] == Step(n - k / 2, if k % 2 == 0 then Delete else Retry)
    decreases n - p
  {
    if p < n {
      VisitsAt(n, p + 1);
      forall k | 0 <= k < 2 * (n - p - 1)
        ensures Visits(n, p)[k] == Step(n - k / 2, if k % 2 == 0 then Delete else Retry)
      {
        assert Visits(n, p)[k] == Visits(n, p + 1)[k];
      }
    }
  }

  /** Every page from 1 to n gets both passes, exactly once each, and pages
      come in descending order. */
  lemma VisitsEachOnce(n: nat)
    ensures forall p: nat, a :: Step(p, a) in Visits(n, 0) <==> 1 <= p <= n
    ensures forall k, l :: 0 <= k < l < |Visits(n, 0)| ==>
      Visits(n, 0)[k] != Visits(n, 0)[l] && Visits(n, 0)[k].page >= Visits(n, 0)[l].page
  {
    VisitsAt(n, 0);
    forall p: nat, a | 1 <= p <= n
      ensures Step(p, a) in Visits(n, 0)
    {
      var k := 2 * (n - p) + (if a == Delete then 0 else 1);
      assert Visits(n, 0)[k] == Step(p, a);
    }
  }

  // ---------------------------------------------------------------------
  // The sweep.

  /** What one pass reported: its page, its action, how many rows it ticked,
      and why it stopped. */
  datatype Report = Report(page: nat, action: Action, count: nat, outcome: Outcome)

  datatype SweepResult =
    | NoPageNumber                               // the last link's address has no page number
    | Swept(last: nat, reports: seq<Report>)

  /** The page and action of each report, in order. */
  function StepsOf(reports: seq<Report>): (steps: seq<Step>)
    ensures |steps| == |reports|
  {
    if reports == [] then []
    else
      var last := reports[|reports| - 1];
      StepsOf(reports[..|reports| - 1]) + [Step(last.page, last.action)]
  }

  predicate NoneGaveUp(reports: seq<Report>)
  {
    forall k :: 0 <= k < |reports| ==> reports[k].outcome != GaveUp
  }

  /** The submissions made of one pass add up to its report: all on its
      page with its action, count is the rows they ticked, and the pass gave
      up exactly at the fourth failure. */
  ghost predicate Sums(report: Report, made: seq<Submission>)
  {
    && (forall e :: e in made ==> e.action == report.action && e.page == report.page && e.ticked > 0)
    && report.count == Ticked(made)
    && Failures(made) <= 4
    && (report.outcome == GaveUp <==> Failures(made) == 4)
  }

  /** How a pass with rule t, reported as report, ended, from the listing
      before to the listing after, with the submissions made: it submitted
      nothing exactly when its page had nothing to tick; unless it gave up,
      it left nothing to tick on its page, and it reported EmptyPage exactly
      when it left the page empty; it gave up right after a failed
      submission. */
  ghost predicate Ended(t: Row -> bool, size: nat, report: Report, made: seq<Submission>,
                        before: seq<Row>, after: seq<Row>)
  {
    && report.page >= 1
    && (made == [] <==> CleanFrom(t, Page(before, report.page, size), 0))
    && (report.outcome != GaveUp ==> CleanFrom(t, Page(after, report.page, size), 0))
    && (report.outcome == EmptyPage <==> Page(after, report.page, size) == [])
    && (report.outcome == GaveUp ==> made != [] && !made[|made| - 1].ok)
  }

  /** The submissions of several passes, one block after another. */
  function Concat(blocks: seq<seq<Submission>>): (log: seq<Submission>)
    ensures blocks == [] ==> log == []
  {
    if blocks == [] then []
    else Concat(blocks[..|blocks| - 1]) + blocks[|blocks| - 1]
  }

  /** Two more blocks add their submissions at the end, in order. */
  lemma ConcatTwo(log: seq<Submission>, blocks: seq<seq<Submission>>, d: seq<Submission>, r: seq<Submission>)
    ensures Concat(blocks + [d, r]) == Concat(blocks) + (d + r)
    ensures log + Concat(blocks) + (d + r) == log + Concat(blocks + [d, r])
  {
    var all := blocks + [d, r];
    assert all[..|all| - 1] == blocks + [d];
    assert (blocks + [d])[..|blocks|] == blocks;
  }

  /** The rows neither family ticks, in order. */
  function Untouched(s: seq<Row>): seq<Row>
  {
    Keep(TickOf(Retry), Keep(TickOf(Delete), s))
  }

  /** What one pass with rule t on page p (pages of size rows) does to the
      listing, from rows0 to rows, as a page visit needs it: the rows t does
      not tick stay, in order; the other family's rule v stays clean from
      the start of the page, or from its end, where it was; and when the
      pass does not give up (ok), nothing t ticks is left from the page on,
      provided nothing was left after it. */
  ghost predicate PassOnPage(t: Row -> bool, v: Row -> bool, p: nat, size: nat,
                             rows0: seq<Row>, rows: seq<Row>, ok: bool)
    requires p >= 1
  {
    && Keep(t, rows) == Keep(t, rows0)
    && (CleanFrom(v, rows0, (p - 1) * size) ==> CleanFrom(v, rows, (p - 1) * size))
    && (CleanFrom(v, rows0, p * size) ==> CleanFrom(v, rows, p * size))
    && (ok && CleanFrom(t, rows0, p * size) ==> CleanFrom(t, rows, (p - 1) * size))
  }

  /** A pass keeps only what OnlyTicked allows, so PassOnPage holds of it. */
  lemma PassIsOnPage(t: Row -> bool, v: Row -> bool, p: nat, size: nat,
                     rows0: seq<Row>, rows: seq<Row>, ok: bool)
    requires p >= 1 && OnlyTicked(t, p, size, rows0, rows)
    requires ok ==> CleanFrom(t, Page(rows, p, size), 0)
    ensures PassOnPage(t, v, p, size, rows0, rows, ok)
  {
    DropsKeep(t, rows0, rows);
    var lo, hi := (p - 1) * size, p * size;
    assert lo <= hi;
    if CleanFrom(v, rows0, lo) {
      assert CleanFrom(v, rows, lo);
    }
    if CleanFrom(v, rows0, hi) {
      assert CleanFrom(v, rows, hi);
    }
    if ok && CleanFrom(t, rows0, hi) {
      StopsClean(t, p, size, rows0, rows);
    }
  }

  /** The delete pass (rule t) then the retry pass (rule u) on page p: the
      rows neither rule ticks survive in order, and when neither pass gave
      up, nothing is left for either rule from the page on, provided nothing
      was left after it. */
  lemma SweepStep(t: Row -> bool, u: Row -> bool, p: nat, size: nat,
                  before: seq<Row>, between: seq<Row>, after: seq<Row>, okT: bool, okU: bool)
    requires p >= 1
    requires PassOnPage(t, u, p, size, before, between, okT) && PassOnPage(u, t, p, size, between, after, okU)
    ensures Keep(u, Keep(t, after)) == Keep(u, Keep(t, before))
    ensures okT && okU && CleanFrom(t, before, p * size) && CleanFrom(u, before, p * size) ==>
      CleanFrom(t, after, (p - 1) * size) && CleanFrom(u, after, (p - 1) * size)
  {
    KeepCommutes(u, t, after);
    KeepCommutes(u, t, between);
  }

  /** Run one pass on the page on screen, with action a and rule, and
      report it; made is the submissions it made, and other is the rule of
      the other family. */
  method ReportPass(c: Console, a: Action, rule: Row -> bool, ghost other: Row -> bool)
    returns (report: Report, ghost made: seq<Submission>)
    requires c.Valid()
    modifies c`rows, c`outcomes, c`log
    ensures c.Valid()
    ensures report.page == c.page && report.action == a && Sums(report, made)
    ensures c.log == old(c.log) + made
    ensures Follows(old(c.outcomes), made, c.outcomes)
    ensures |old(c.rows)| - |c.rows| == Removed(made)
    ensures false !in old(c.outcomes) ==> report.outcome != GaveUp && false !in c.outcomes
    ensures PassOnPage(rule, other, c.page, c.pageSize, old(c.rows), c.rows, report.outcome != GaveUp)
    ensures PassReplayed(rule, c.page, c.pageSize, old(c.rows), made, c.rows)
    ensures Ended(rule, c.pageSize, report, made, old(c.rows), c.rows)
  {
    var count, outcome;
    count, outcome, made := RunPass(c, a, rule);
    PassIsOnPage(rule, other, c.page, c.pageSize, old(c.rows), c.rows, outcome != GaveUp);
    report := Report(c.page, a, count, outcome);
  }

  /** The delete pass's record followed by the retry pass's: their
      submissions join in the log and in the outcomes taken, and the rows
      they took away add up. */
  lemma PageRecord(log0: seq<Submission>, o0: seq<bool>, len0: int, deleted: Report, deletes: seq<Submission>,
                   log1: seq<Submission>, o1: seq<bool>, len1: int, retried: Report, retries: seq<Submission>,
                   log2: seq<Submission>, o2: seq<bool>, len2: int)
    requires log1 == log0 + deletes && Follows(o0, deletes, o1) && len0 - len1 == Removed(deletes)
    requires false !in o0 ==> deleted.outcome != GaveUp && false !in o1
    requires log2 == log1 + retries && Follows(o1, retries, o2) && len1 - len2 == Removed(retries)
    requires false !in o1 ==> retried.outcome != GaveUp && false !in o2
    ensures log2 == log0 + (deletes + retries)
    ensures Follows(o0, deletes + retries, o2)
    ensures len0 - len2 == Removed(deletes) + Removed(retries)
    ensures false !in o0 ==> deleted.outcome != GaveUp && retried.outcome != GaveUp && false !in o2
  {
    FollowsJoin(o0, deletes, o1, retries, o2);
  }

  /** Visit page p and run the delete pass (rule discard) and then the retry
      pass (rule retry) on it; the two reports say how each went, deletes
      and retries are the submissions each made, and middle is the listing
      between the two passes. */
  method ProcessPage(c: Console, p: nat, discard: Row -> bool, retry: Row -> bool)
    returns (deleted: Report, retried: Report, ghost deletes: seq<Submission>, ghost retries: seq<Submission>,
             ghost middle: seq<Row>)
    requires c.Valid() && p >= 1
    modifies c`rows, c`outcomes, c`log, c`page
    ensures c.Valid() && c.page == p
    ensures deleted.page == p && deleted.action == Delete && Sums(deleted, deletes)
    ensures retried.page == p && retried.action == Retry && Sums(retried, retries)
    // the delete submissions, then the retry ones, each taking the next outcome
    ensures c.log == old(c.log) + (deletes + retries)
    ensures Follows(old(c.outcomes), deletes + retries, c.outcomes)
    ensures |old(c.rows)| - |c.rows| == Removed(deletes) + Removed(retries)
    ensures false !in old(c.outcomes) ==>
      deleted.outcome != GaveUp && retried.outcome != GaveUp && false !in c.outcomes
    ensures Keep(retry, Keep(discard, c.rows)) == Keep(retry, Keep(discard, old(c.rows)))
    ensures deleted.outcome != GaveUp && retried.outcome != GaveUp &&
            CleanFrom(discard, old(c.rows), p * c.pageSize) && CleanFrom(retry, old(c.rows), p * c.pageSize) ==>
      CleanFrom(discard, c.rows, (p - 1) * c.pageSize) && CleanFrom(retry, c.rows, (p - 1) * c.pageSize)
    // the listing left is the delete submissions replayed and then the retry
    // ones, each of which ticked what its rule ticks on the page it was shown
    ensures PassReplayed(discard, p, c.pageSize, old(c.rows), deletes, middle)
    ensures PassReplayed(retry, p, c.pageSize, middle, retries, c.rows)
    // each pass ran until its page was clean or empty, or gave up on a failure
    ensures Ended(discard, c.pageSize, deleted, deletes, old(c.rows), middle)
    ensures Ended(retry, c.pageSize, retried, retries, middle, c.rows)
  {
    c.Visit(p);
    ghost var before, log0, outcomes0 := c.rows, c.log, c.outcomes;
    deleted, deletes := ReportPass(c, Delete, discard, retry);
    ghost var between, log1, outcomes1 := c.rows, c.log, c.outcomes;
    middle := between;
    retried, retries := ReportPass(c, Retry, retry, discard);
    SweepStep(discard, retry, p, c.pageSize, before, between, c.rows,
              deleted.outcome != GaveUp, retried.outcome != GaveUp);
    PageRecord(log0, outcomes0, |before|, deleted, deletes, log1, outcomes1, |between|, retried, retries,
               c.log, c.outcomes, |c.rows|);
  }

  /** Appending the reports of page p adds page p's two passes to the trail. */
  lemma TrailStep(reports: seq<Report>, deleted: Report, retried: Report, p: nat)
    requires p >= 1 && deleted.page == p && deleted.action == Delete
    requires retried.page == p && retried.action == Retry
    ensures StepsOf(reports + [deleted, retried]) == StepsOf(reports) + [Step(p, Delete), Step(p, Retry)]
    ensures NoneGaveUp(reports + [deleted, retried]) <==>
      NoneGaveUp(reports) && deleted.outcome != GaveUp && retried.outcome != GaveUp
  {
    var more := [deleted, retried];
    var all := reports + more;
    assert all[..|all| - 1] == reports + [deleted];
    assert (reports + [deleted])[..|reports|] == reports;
    if NoneGaveUp(all) {
      forall k | 0 <= k < |reports|
        ensures reports[k].outcome != GaveUp
      {
        assert all[k] == reports[k];
      }
      assert all[|reports|] == deleted && all[|reports| + 1] == retried;
    }
  }

  /** Page p starts one page size before page p + 1 does. */
  lemma PageStart(p: nat, size: nat)
    requires p >= 1
    ensures p * size >= size && (p - 1) * size == p * size - size
  {
  }

  /** The sweep's clean-up carries over one page: if nothing either rule
      ticks was left after page p, and neither pass on page p gave up,
      nothing is left from page p on. */
  lemma PageCleanStep(discard: Row -> bool, retry: Row -> bool, p: nat, size: nat, lo: nat, hi: nat, covered: bool,
                      reports: seq<Report>, deleted: Report, retried: Report, before: seq<Row>, after: seq<Row>)
    requires hi == p * size && lo + size == hi
    requires NoneGaveUp(reports) && covered ==> CleanFrom(discard, before, hi) && CleanFrom(retry, before, hi)
    requires deleted.outcome != GaveUp && retried.outcome != GaveUp &&
             CleanFrom(discard, before, p * size) && CleanFrom(retry, before, p * size) ==>
      CleanFrom(discard, after, (p - 1) * size) && CleanFrom(retry, after, (p - 1) * size)
    requires NoneGaveUp(reports + [deleted, retried]) <==>
      NoneGaveUp(reports) && deleted.outcome != GaveUp && retried.outcome != GaveUp
    ensures NoneGaveUp(reports + [deleted, retried]) && covered ==>
      CleanFrom(discard, after, lo) && CleanFrom(retry, after, lo)
  {
    assert p >= 1 ==> (p - 1) * size == lo;
  }

  /** The sweep's record carries over one page: the reports of page p and
      the submissions they add up to join those of the pages before, in the
      log and in the outcomes taken. */
  lemma LogStep(log0: seq<Submission>, o0: seq<bool>, reports: seq<Report>, blocks: seq<seq<Submission>>,
                deleted: Report, retried: Report, deletes: seq<Submission>, retries: seq<Submission>,
                logBefore: seq<Submission>, oBefore: seq<bool>, log: seq<Submission>, o: seq<bool>)
    requires |blocks| == |reports| && forall k :: 0 <= k < |reports| ==> Sums(reports[k], blocks[k])
    requires logBefore == log0 + Concat(blocks) && Follows(o0, Concat(blocks), oBefore)
    requires false !in o0 ==> NoneGaveUp(reports) && false !in oBefore
    requires Sums(deleted, deletes) && Sums(retried, retries)
    requires log == logBefore + (deletes + retries) && Follows(oBefore, deletes + retries, o)
    requires false !in oBefore ==> deleted.outcome != GaveUp && retried.outcome != GaveUp && false !in o
    requires NoneGaveUp(reports + [deleted, retried]) <==>
      NoneGaveUp(reports) && deleted.outcome != GaveUp && retried.outcome != GaveUp
    ensures |blocks + [deletes, retries]| == |reports + [deleted, retried]|
    ensures forall k :: 0 <= k < |reports + [deleted, retried]| ==>
      Sums((reports + [deleted, retried])[k], (blocks + [deletes, retries])[k])
    ensures log == log0 + Concat(blocks + [deletes, retries])
    ensures Follows(o0, Concat(blocks + [deletes, retries]), o)
    ensures false !in o0 ==> NoneGaveUp(reports + [deleted, retried]) && false !in o
  {
    ConcatTwo(log0, blocks, deletes, retries);
    FollowsJoin(o0, Concat(blocks), oBefore, deletes + retries, o);
  }

  /** The rule of the pass with action a, in a sweep with these rules. */
  function RuleFor(discard: Row -> bool, retry: Row -> bool, a: Action): Row -> bool
  {
    if a == Delete then discard else retry
  }

  /** Pass k of a sweep was run on listings[k] and left listings[k + 1]:
      its submissions blocks[k], replayed as PassReplayed says, took the one
      to the other, and it ended as Ended says. */
  ghost predicate Link(discard: Row -> bool, retry: Row -> bool, size: nat, reports: seq<Report>,
                       blocks: seq<seq<Submission>>, listings: seq<seq<Row>>, k: nat)
  {
    && k < |reports| && k < |blocks| && k + 1 < |listings|
    && var t := RuleFor(discard, retry, reports[k].action);
       && PassReplayed(t, reports[k].page, size, listings[k], blocks[k], listings[k + 1])
       && Ended(t, size, reports[k], blocks[k], listings[k], listings[k + 1])
  }

  /** The listings a sweep went through, one link per pass. */
  ghost predicate Chain(discard: Row -> bool, retry: Row -> bool, size: nat, reports: seq<Report>,
                        blocks: seq<seq<Submission>>, listings: seq<seq<Row>>)
  {
    && |blocks| == |reports| && |listings| == |reports| + 1
    && forall k: nat :: k < |reports| ==> Link(discard, retry, size, reports, blocks, listings, k)
  }

  /** The chain carries over one page: its delete pass and its retry pass
      add two links. */
  lemma ChainStep(discard: Row -> bool, retry: Row -> bool, size: nat, reports: seq<Report>,
                  blocks: seq<seq<Submission>>, listings: seq<seq<Row>>, deleted: Report, retried: Report,
                  deletes: seq<Submission>, retries: seq<Submission>, middle: seq<Row>, after: seq<Row>)
    requires Chain(discard, retry, size, reports, blocks, listings)
    requires deleted.action == Delete && retried.action == Retry
    requires PassReplayed(discard, deleted.page, size, listings[|reports|], deletes, middle)
    requires PassReplayed(retry, retried.page, size, middle, retries, after)
    requires Ended(discard, size, deleted, deletes, listings[|reports|], middle)
    requires Ended(retry, size, retried, retries, middle, after)
    ensures Chain(discard, retry, size, reports + [deleted, retried], blocks + [deletes, retries],
                  listings + [middle, after])
    ensures (listings + [middle, after])[0] == listings[0]
    ensures (listings + [middle, after])[|reports + [deleted, retried]|] == after
  {
    var rs, bs, ls := reports + [deleted, retried], blocks + [deletes, retries], listings + [middle, after];
    forall k: nat | k < |rs|
      ensures Link(discard, retry, size, rs, bs, ls, k)
    {
      if k < |reports| {
        assert Link(discard, retry, size, reports, blocks, listings, k);
        assert rs[k] == reports[k] && bs[k] == blocks[k] && ls[k] == listings[k] && ls[k + 1] == listings[k + 1];
      }
    }
  }

  /** Every pass of a sweep, whatever the passes before it did: it submits
      exactly when the page it is shown has rows its rule ticks, leaves none
      of them there unless it gives up, reports EmptyPage exactly when it
      leaves the page empty, and gives up only right after a failed
      submission. */
  lemma EachPassEnds(discard: Row -> bool, retry: Row -> bool, size: nat, reports: seq<Report>,
                     blocks: seq<seq<Submission>>, listings: seq<seq<Row>>, k: nat)
    requires Chain(discard, retry, size, reports, blocks, listings) && k < |reports|
    ensures reports[k].page >= 1
    ensures blocks[k] == [] <==>
      CleanFrom(RuleFor(discard, retry, reports[k].action), Page(listings[k], reports[k].page, size), 0)
    ensures reports[k].outcome != GaveUp ==>
      CleanFrom(RuleFor(discard, retry, reports[k].action), Page(listings[k + 1], reports[k].page, size), 0)
    ensures reports[k].outcome == EmptyPage <==> Page(listings[k + 1], reports[k].page, size) == []
    ensures reports[k].outcome == GaveUp ==> blocks[k] != [] && !blocks[k][|blocks[k]| - 1].ok
  {
    assert Link(discard, retry, size, reports, blocks, listings, k);
  }

  /** Run the delete pass (rule discard) and the retry pass (rule retry) on
      every page from last down to 1; blocks holds the submissions of each
      pass, report by report. */
  method SweepPages(c: Console, last: nat, discard: Row -> bool, retry: Row -> bool)
    returns (reports: seq<Report>, ghost blocks: seq<seq<Submission>>, ghost listings: seq<seq<Row>>)
    requires c.Valid()
    modifies c`rows, c`outcomes, c`log, c`page
    ensures c.Valid()
    ensures StepsOf(reports) == Visits(last, 0)
    ensures |blocks| == |reports| && forall k :: 0 <= k < |reports| ==> Sums(reports[k], blocks[k])
    ensures c.log == old(c.log) + Concat(blocks)
    ensures Follows(old(c.outcomes), Concat(blocks), c.outcomes)
    ensures false !in old(c.outcomes) ==> NoneGaveUp(reports)
    ensures Keep(retry, Keep(discard, c.rows)) == Keep(retry, Keep(discard, old(c.rows)))
    ensures NoneGaveUp(reports) && |old(c.rows)| <= last * c.pageSize ==>
      CleanFrom(discard, c.rows, 0) && CleanFrom(retry, c.rows, 0)
    // the listing left is every pass's submissions replayed in turn, each of
    // which ticked what its rule ticks on the page it was shown, and each
    // pass ran until its page was clean or empty or it gave up on a failure
    ensures Chain(discard, retry, c.pageSize, reports, blocks, listings)
    ensures listings[0] == old(c.rows) && listings[|reports|] == c.rows
  {
    ghost var rows0 := c.rows;
    reports, blocks, listings := [], [], [c.rows];
    FollowsNothing(c.outcomes);
    var pageNumber: nat := last;
    // the row page pageNumber + 1 starts at, and whether the last page was the last
    ghost var hi: nat, covered := last * c.pageSize, |rows0| <= last * c.pageSize;
    while pageNumber > 0
      invariant pageNumber <= last
      invariant c.Valid()
      invariant StepsOf(reports) == Visits(last, pageNumber)
      invariant |blocks| == |reports| && forall k :: 0 <= k < |reports| ==> Sums(reports[k], blocks[k])
      invariant c.log == old(c.log) + Concat(blocks)
      invariant Follows(old(c.outcomes), Concat(blocks), c.outcomes)
      invariant false !in old(c.outcomes) ==> NoneGaveUp(reports) && false !in c.outcomes
      invariant Keep(retry, Keep(discard, c.rows)) == Keep(retry, Keep(discard, rows0))
      invariant hi == pageNumber * c.pageSize
      invariant NoneGaveUp(reports) && covered ==> CleanFrom(discard, c.rows, hi) && CleanFrom(retry, c.rows, hi)
      invariant Chain(discard, retry, c.pageSize, reports, blocks, listings)
      invariant listings[0] == rows0 && listings[|reports|] == c.rows
      decreases pageNumber
    {
      PageStart(pageNumber, c.pageSize);
      reports, blocks, listings := NextPage(c, last, pageNumber, discard, retry, rows0, old(c.log), old(c.outcomes),
                                            covered, hi, hi - c.pageSize, reports, blocks, listings);
      pageNumber, hi := pageNumber - 1, hi - c.pageSize;
    }
  }

  /** Page pageNumber of a sweep from page last down, after the pages above
      it: its two passes extend the reports and the blocks, and everything
      the sweep states so far carries over to the next page down. Page
      pageNumber starts at row lo and the pages above it at row hi; covered
      says the last page really was the last. */
  method NextPage(c: Console, last: nat, pageNumber: nat, discard: Row -> bool, retry: Row -> bool,
                  ghost rows0: seq<Row>, ghost log0: seq<Submission>, ghost o0: seq<bool>,
                  ghost covered: bool, ghost hi: nat, ghost lo: nat,
                  reports0: seq<Report>, ghost blocks0: seq<seq<Submission>>, ghost listings0: seq<seq<Row>>)
    returns (reports: seq<Report>, ghost blocks: seq<seq<Submission>>, ghost listings: seq<seq<Row>>)
    requires c.Valid() && 1 <= pageNumber <= last
    requires hi == pageNumber * c.pageSize && lo + c.pageSize == hi
    requires StepsOf(reports0) == Visits(last, pageNumber)
    requires |blocks0| == |reports0| && forall k :: 0 <= k < |reports0| ==> Sums(reports0[k], blocks0[k])
    requires c.log == log0 + Concat(blocks0)
    requires Follows(o0, Concat(blocks0), c.outcomes)
    requires false !in o0 ==> NoneGaveUp(reports0) && false !in c.outcomes
    requires Keep(retry, Keep(discard, c.rows)) == Keep(retry, Keep(discard, rows0))
    requires NoneGaveUp(reports0) && covered ==> CleanFrom(discard, c.rows, hi) && CleanFrom(retry, c.rows, hi)
    requires Chain(discard, retry, c.pageSize, reports0, blocks0, listings0)
    requires listings0[0] == rows0 && listings0[|reports0|] == c.rows
    modifies c`rows, c`outcomes, c`log, c`page
    ensures c.Valid()
    ensures StepsOf(reports) == Visits(last, pageNumber - 1)
    ensures |blocks| == |reports| && forall k :: 0 <= k < |reports| ==> Sums(reports[k], blocks[k])
    ensures c.log == log0 + Concat(blocks)
    ensures Follows(o0, Concat(blocks), c.outcomes)
    ensures false !in o0 ==> NoneGaveUp(reports) && false !in c.outcomes
    ensures Keep(retry, Keep(discard, c.rows)) == Keep(retry, Keep(discard, rows0))
    ensures NoneGaveUp(reports) && covered ==> CleanFrom(discard, c.rows, lo) && CleanFrom(retry, c.rows, lo)
    ensures Chain(discard, retry, c.pageSize, reports, blocks, listings)
    ensures listings[0] == rows0 && listings[|reports|] == c.rows
  {
    ghost var before, logBefore, outcomes := c.rows, c.log, c.outcomes;
    var deleted, retried, deletes, retries, middle := ProcessPage(c, pageNumber, discard, retry);
    TrailStep(reports0, deleted, retried, pageNumber);
    PageCleanStep(discard, retry, pageNumber, c.pageSize, lo, hi, covered,
                  reports0, deleted, retried, before, c.rows);
    LogStep(log0, o0, reports0, blocks0, deleted, retried, deletes, retries,
            logBefore, outcomes, c.log, c.outcomes);
    ChainStep(discard, retry, c.pageSize, reports0, blocks0, listings0, deleted, retried,
              deletes, retries, middle, c.rows);
    reports, blocks, listings := reports0 + [deleted, retried], blocks0 + [deletes, retries], listings0 + [middle, c.rows];
  }

  /** One sweep of the morgue; blocks holds the submissions of each pass. */
  method Sweep(c: Console, pager: Pager)
    returns (r: SweepResult, ghost blocks: seq<seq<Submission>>, ghost listings: seq<seq<Row>>)
    requires c.Valid()
    modifies c`rows, c`outcomes, c`log, c`page
    ensures c.Valid()
    ensures r == NoPageNumber <==> LastPageNumber(pager) == None
    ensures r == NoPageNumber ==> c.rows == old(c.rows) && c.log == old(c.log) && c.outcomes == old(c.outcomes)
    // the passes run in the order Visits gives, from the last page down
    ensures r.Swept? ==> LastPageNumber(pager) == Some(r.last) && StepsOf(r.reports) == Visits(r.last, 0)
    // the log gains the submissions of each pass in turn, each taking the
    // next outcome, and they add up to the reports
    ensures r.Swept? ==>
      && |blocks| == |r.reports|
      && (forall k :: 0 <= k < |r.reports| ==> Sums(r.reports[k], blocks[k]))
      && c.log == old(c.log) + Concat(blocks)
      && Follows(old(c.outcomes), Concat(blocks), c.outcomes)
    // a row neither family ticks is never removed, and those rows keep their order
    ensures Untouched(c.rows) == Untouched(old(c.rows))
    // when no pass gave up and the last page really was the last, no row
    // left in the morgue is one either family would tick
    ensures r.Swept? && NoneGaveUp(r.reports) && |old(c.rows)| <= r.last * c.pageSize ==>
      CleanFrom(TickOf(Delete), c.rows, 0) && CleanFrom(TickOf(Retry), c.rows, 0)
    // so with no failing submission ahead, a sweep whose last page covers
    // the listing leaves no row either family would tick
    ensures r.Swept? && false !in old(c.outcomes) && |old(c.rows)| <= r.last * c.pageSize ==>
      (CleanFrom(TickOf(Delete), c.rows, 0) && CleanFrom(TickOf(Retry), c.rows, 0))
    // the listing left is every pass's submissions replayed in turn, each of
    // which ticked exactly what its rules tick on the page it was shown, and
    // each pass ran until its page was clean or empty or it gave up on a failure
    ensures r.Swept? ==>
      && Chain(TickOf(Delete), TickOf(Retry), c.pageSize, r.reports, blocks, listings)
      && listings[0] == old(c.rows) && listings[|r.reports|] == c.rows
  {
    c.Visit(1);
    blocks, listings := [], [c.rows];
    var last: nat := 1;
    if pager.LastLink? {
      var number := PageParam(pager.target);
      if number.None? {
        return NoPageNumber, blocks, listings;
      }
      last := number.value;
    }
    var reports;
    reports, blocks, listings := SweepPages(c, last, TickOf(Delete), TickOf(Retry));
    r := Swept(last, reports);
  }
}
