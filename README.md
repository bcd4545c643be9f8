# uri-sidekiq-watcher, modelled in Dafny

uri-sidekiq-watcher logs into a Mastodon server's Sidekiq console and keeps its
morgue (the list of dead jobs) tidy. From the last page down to the first, it
runs two passes on every page:

- a delete pass, which ticks every row whose job class and error text match a
  fixed set of "discard" rules and presses the form's delete button;
- a retry pass, which does the same with the "retry" rules and the retry button.

Each pass starts over until one of three things happens:

- the page is empty;
- nothing on it matches;
- the button has failed to navigate four times.

This project models that decision core in four modules:

- `Rules` (`rules.dfy`) holds the two row classifiers, exactly as the source
  writes them. It also holds an independent rule-table definition of each,
  with proofs that the two agree, that no row matches both families, and
  that the exact-match rules really are exact.
- `Morgue` (`morgue.dfy`) models the console. The class `Console` holds:
  - the whole morgue listing, split into pages of `pageSize` rows;
  - the page on screen;
  - a sequence of outcomes that decides whether each coming submission
    navigates;
  - a log of the submissions made.

  Alongside the class are the list functions that describe what a
  submission does: `Keep`, `Page`, `Purge` and `Remove`.
- `Convergence` (`convergence.dfy`) models `deleteJobsUntilEmpty` and
  `retryJobsUntilEmpty` as one method, `RunPass`, which takes the action and
  its rule. It proves:
  - the exit conditions and the tally of `rescue`;
  - the log of submissions and the outcomes they take in turn;
  - that each submission ticks exactly the rows the rule ticks on the page
    as it was shown, so the listing left is the replay of the submissions and
    `count` is determined by it, a failed submission's rows being counted
    again by the next one;
  - that only ticked rows disappear;
  - that a pass never gives up when no failing outcome is ahead;
  - that a pass that does not give up leaves nothing on its page to tick.
- `Walk` (`walk.dfy`) models the `page=(\d+)$` parse of the last link's
  address and the descending page walk. It proves:
  - the order of the passes;
  - that rows no rule ticks survive in order;
  - that a sweep in which no pass gave up, and whose last page covers the
    listing, leaves no row either family would tick;
  - that the listing each pass leaves is the replay of its own submissions
    on the listing the previous pass left.

## Model

| member | source | states |
|---|---|---|
| Rules.IsDiscard | index.js:52-63 | the discard condition, the ten rules as written, on the trimmed job and error texts; its contract is supplied by DiscardIsRuleTable, Disjoint, AttributesLimitIsExact and DepthLimitIsExact |
| Rules.IsRetry | index.js:116-122 | the retry condition, the five rules as written, on the trimmed job and error texts; its contract is supplied by RetryIsRuleTable, Disjoint and RedownloadTimeoutIsRetried |
| Rules.DiscardIsRuleTable | index.js:52-63 | the delete pass ticks a row exactly when one of the ten discard rules holds: six unscoped error prefixes, two `LinkCrawlWorker` exact texts, one `LinkCrawlWorker` prefix and one `Web::PushNotificationWorker` prefix |
| Rules.RetryIsRuleTable | index.js:116-122 | the retry pass ticks a row exactly when one of the five retry rules holds: two unscoped prefixes, one `LinkCrawlWorker` prefix and two `RedownloadMediaWorker` prefixes |
| Rules.LiteralsIncomparable | index.js:53-62 | no discard literal is a prefix of a retry literal, and no retry literal is a prefix of a discard literal |
| Rules.Disjoint | index.js:52-63 | no job class and error text satisfy both the discard and the retry condition |
| Rules.Classify | index.js:52-63 | every row is discarded, retried or kept, and each verdict holds exactly when its condition does |
| Rules.DiscardOpenings | index.js:52-63 | a proof helper for the exactness lemmas, not a promise of the source: every error text the discard condition accepts is longer than ten characters and begins with one of a few known openings, and an "Ar" opening occurs only under the crawl worker's two exact rules |
| Rules.RetryOpenings | index.js:116-122 | a proof helper for the exactness lemmas, not a promise of the source: every error text the retry condition accepts is longer than ten characters and begins with one of a few known openings |
| Rules.AttributesLimitIsExact | index.js:59 | the attribute-limit text followed by any further text is not discarded |
| Rules.DepthLimitIsExact | index.js:60 | the depth-limit text followed by any further text is not discarded |
| Rules.ArgumentErrorsNeedCrawlWorker | index.js:59-60 | both argument-error texts are discarded under `LinkCrawlWorker` and under no other job class |
| Rules.DeepDocumentIsDiscarded | index.js:60 | a crawl whose document tree is too deep is discarded |
| Rules.RedownloadTimeoutIsRetried | index.js:121 | a media redownload that failed with an HTTP timeout is retried, not discarded |
| Rules.UnknownErrorIsKept | index.js:52-63 | a crawl error that no rule names is neither discarded nor retried |
| Morgue.KeepCleans | index.js:45-90 | what a successful submission leaves on a page has nothing its rule ticks, and a stretch that had nothing to tick still has nothing |
| Morgue.KeepTwice | index.js:36-91 | a second pass with the same rules over what a pass left ticks nothing new |
| Morgue.KeepCommutes | index.js:181-182 | the rows that neither pass ticks do not depend on which pass runs first |
| Morgue.UntickedIsKeep | index.js:64-67 | the ticked checkboxes are exactly the rows the rule selects, and their number is how many rows it selects |
| Morgue.TickedOn | index.js:64-66 | how many rows of the page the rule ticks, at most the rows the page shows; UntickedIsKeep ties it to the checkboxes clicked |
| Morgue.Remove | index.js:79-90 | the listing after the server removes the ticked rows of the page: the rows before and after the page stay and later rows move up, so exactly as many rows go as checkboxes were ticked; RemoveIsPurge equates it with Purge |
| Morgue.Purge | index.js:79-90 | a successful submission of what the rule ticks on the page: the listing loses exactly the rows counted by TickedOn; PurgeKeeps, PurgeStaysClean and PurgeDropsOnly supply the rest of its contract |
| Morgue.PurgeKeeps | index.js:79-90 | a successful submission keeps every unticked row in order and every row before the page, and removes as many rows as were ticked |
| Morgue.RemoveIsPurge | index.js:79-90 | submitting the checkboxes a scan ticked removes exactly the rows the rule ticks on the page |
| Morgue.PurgeStaysClean | index.js:79-90 | a submission on a page never brings a row that would be ticked onto a stretch from the page onwards that had none |
| Morgue.PageClean | index.js:176-182 | a proof helper, not a promise of the source: a page with nothing to tick, followed by rows with nothing to tick, leaves nothing to tick from that page on |
| Morgue.CountedAtLeastRemoved | index.js:64-67 | the rows counted are never fewer than the rows removed, and are equal exactly when no submission that failed had ticked rows |
| Morgue.FollowsJoin | index.js:79-90 | a proof helper, not a promise of the source: submissions made one after another, by one pass and then the next, take their navigation outcomes one after another from the same sequence |
| Morgue.AfterNavigates | index.js:79-90 | a proof helper, not a promise of the source: after n submissions, the k-th submission still to come navigates exactly when the (n + k)-th one from the start would |
| Morgue.DropsKeep | index.js:79-90 | when a listing loses only rows a rule ticks, the rows that rule does not tick are the same, in the same order |
| Morgue.KeepDropsOnly | index.js:79-90 | a proof helper, not a promise of the source: removing every row a rule ticks loses only rows that rule ticks |
| Morgue.DropsTrans | index.js:36-91 | a proof helper, not a promise of the source: losing only ticked rows, twice in a row, loses only ticked rows |
| Morgue.Console.Visit | index.js:156-177 | navigating shows the requested page |
| Morgue.Console.Submit | index.js:79-90 | a press of a bulk button takes the next outcome (success once they run out) and drops it from those to come, logs the submission with its action, page and number of ticked rows, and removes the ticked rows of the page when it navigates, else changes no row |
| Convergence.Scan | index.js:45-69 | the checkboxes ticked are those of the rows the rule selects, their number is the rows the rule removes, and it is 0 exactly when no row on the page matches |
| Convergence.RunRound | index.js:37-90 | one round stops on an empty page or a page with nothing to tick and then changes nothing, not even the outcomes to come; otherwise it submits a non-empty batch of exactly as many rows as the rule ticks on the page shown, which navigates exactly when the next outcome says so, consumes that outcome, is logged with its action, page and count, and the listing becomes the purge of the page if it navigated or stays as it was |
| Convergence.PurgeKeepsOnlyTicked | index.js:79-90 | after any number of successful submissions on a page, only rows the rule ticks are gone, the rows before the page are unchanged, and clean stretches stay clean |
| Convergence.ReplayStep | index.js:64-90 | a proof helper, not a promise of the source: one more submission purges the replayed listing's page if it navigated and leaves it as it was if not, and it was ticked as shown exactly when it ticked what the rule ticks on that listing's page |
| Convergence.TickedAt | index.js:64-67 | the k-th submission of a pass ticked exactly the rows the rule ticks on the page of the listing the k submissions before it left |
| Convergence.CountedAgain | index.js:64-90 | a submission that failed changed nothing, so the next one ticks the same rows again and `count` adds them a second time |
| Convergence.ReplayOnlyTicked | index.js:79-90 | whatever submissions a pass makes, the listing they leave has lost only rows the rule ticks, in order, with the rows before the page untouched and clean stretches kept clean |
| Convergence.TallyStep | index.js:64-90 | a proof helper, not a promise of the source: one more submission adds its ticked rows to `count`, adds them to the rows taken away only if it navigated, and adds one failure exactly when it did not navigate |
| Convergence.PassStep | index.js:37-90 | a proof helper, not a promise of the source: one more submission of what the rule ticks on a page that had rows to tick, taking the next outcome, keeps every part of the pass's running state: the tally, the outcomes taken in turn, and the listing as the replay of the submissions, each ticked as shown |
| Convergence.Advance | index.js:37-90 | one iteration of the pass loop keeps the running state (tally, outcomes taken, listing replayed, each submission ticked as shown) and logs its submission; a round that submits nothing changes no row and leaves a page with nothing to tick; a failed submission adds one failure and leaves the page non-empty, a successful one removes at least one row |
| Convergence.StopsClean | index.js:71-73 | a pass that stops with nothing to tick on its page, after a clean remainder, leaves nothing to tick from the page on |
| Convergence.Repeat | index.js:36-91 | the pass loop runs until a round submits nothing, when at most three submissions failed and the page is empty or has nothing to tick, or until the fourth failure, when the last submission failed and the page still shows rows; throughout it keeps the running state and the log |
| Convergence.RunPass | index.js:32-153 | `deleteJobsUntilEmpty` and `retryJobsUntilEmpty`, one method taking the action and its rule. Every submission is appended to the log, on the page with the action and with ticked rows. The k-th submission navigates exactly as the k-th outcome ahead says, and the outcomes left are the rest. Each submission ticked exactly the rows the rule ticks on the page of the listing the submissions before it left, and the listing left is those submissions replayed from the original one. `count` is the rows ticked over all submissions, failed ones included, so it is determined by the listing and the outcomes; the rows taken away are exactly those ticked in submissions that navigated. The fourth failure ends the pass and no fifth is made; with no failing outcome ahead the pass never gives up. It submits nothing exactly when the page had nothing to tick. The rows still listed are the original listing with only rows the rule ticks taken out, the rows before the page untouched. Unless it gives up, the pass ends with nothing on its page to tick |
| Walk.ValueOfDecimal | index.js:170 | reading the digits a page number prints as gives back that number |
| Walk.TrailingDigits | index.js:170 | the digit run ending a string is all digits and is preceded by a non-digit or by nothing |
| Walk.PageParam | index.js:170 | the `page=(\d+)$` match read by `parseInt`, or None when it does not match; its contract is supplied by PageParamFinds, PageParamMatches and PageUrlRoundTrip |
| Walk.PageParamFinds | index.js:170 | an address that ends in `page=` and a non-empty run of digits yields the value of those digits |
| Walk.PageParamMatches | index.js:170 | whenever the parse yields a number, the address ends in `page=` and digits, and the number is their value |
| Walk.PageUrlRoundTrip | index.js:170-177 | the address built for page n parses back to n |
| Walk.LastPageNumber | index.js:160-171 | 1 without a last link, else the page number its address ends in; LastLinkToPage and Sweep supply its contract |
| Walk.LastLinkToPage | index.js:160-170 | a last link leading to the address of page n makes n the last page number |
| Walk.Visits | index.js:176-182 | the passes of a sweep from page n down to page p + 1, delete then retry on each page, two per page; VisitsAt and VisitsEachOnce supply the rest of its contract |
| Walk.VisitsAt | index.js:176-182 | pass k of a sweep from page n runs on page n - k/2, deleting on even k and retrying on odd k |
| Walk.VisitsEachOnce | index.js:176-182 | each page from 1 to n gets both passes exactly once, pages appear in descending order, and no other page appears |
| Walk.ConcatTwo | index.js:181-182 | a proof helper, not a promise of the source: the submissions of a page's two passes come after those of earlier pages, delete pass first |
| Walk.PassIsOnPage | index.js:32-153 | a pass that loses only rows its rule ticks keeps the rows it does not tick in order, keeps the other family clean wherever it was clean from the page's start or end, and, unless it gives up, leaves nothing it ticks from the page on when nothing was left after it |
| Walk.ReportPass | index.js:181-182 | one pass on the page on screen, reported with its page, action and `count`; its submissions add up to the report, are appended to the log and take the outcomes in turn; the rows removed are those its navigating submissions ticked; with no failing outcome ahead it does not give up; the listing left is its submissions replayed, each ticked as shown; and, as Ended states, it submitted nothing exactly when its page had nothing to tick, left nothing to tick on its page unless it gave up, reported EmptyPage exactly when it left the page empty, and gave up only right after a failed submission |
| Walk.PageRecord | index.js:181-182 | a proof helper, not a promise of the source: the delete pass's submissions followed by the retry pass's join in the log and in the outcomes taken, and the rows they remove add up |
| Walk.SweepStep | index.js:181-182 | the delete pass then the retry pass on one page keep every row neither family ticks, in order; when neither gives up and nothing either family ticks was left after the page, nothing is left from the page on |
| Walk.ProcessPage | index.js:176-182 | one page visit shows page p, then runs the delete pass and the retry pass on it: both reports are for page p with their actions and add up their submissions; the log gains the delete submissions and then the retry ones, which take the outcomes in turn; the rows removed are those their navigating submissions ticked; with no failing outcome ahead neither gives up; the rows neither family ticks stay in order, and when neither gives up nothing is left to tick from the page on, given nothing was left after it; the delete pass's submissions replayed give the listing between the passes, and the retry pass's replayed on that give the listing left; each pass ended as Ended states: it submitted exactly when the page shown to it had rows to tick, left none unless it gave up, reported EmptyPage exactly when it left the page empty, and gave up only right after a failed submission |
| Walk.TrailStep | index.js:176-182 | a proof helper, not a promise of the source: a page's two reports add its delete step and then its retry step to the trail, and no pass so far gave up exactly when none before did and neither of the two did |
| Walk.PageCleanStep | index.js:176-182 | a proof helper, not a promise of the source: when nothing either family ticks was left after page p and no pass so far gave up, nothing is left from page p on |
| Walk.LogStep | index.js:176-182 | a proof helper, not a promise of the source: the log is the submissions of each pass so far, report by report, in order, and the outcomes they took are consumed in turn |
| Walk.Ended | index.js:36-91 | how one pass ended: it submitted nothing exactly when its page had nothing to tick, left nothing to tick on its page unless it gave up, reported EmptyPage exactly when it left the page empty, and gave up only right after a failed submission; ReportPass and EachPassEnds state it |
| Walk.Link | index.js:176-182 | pass k of a sweep was run on listings[k] and left listings[k + 1], by its submissions replayed, and ended as Ended says; EachPassEnds unpacks it |
| Walk.Chain | index.js:176-182 | one link per pass of a sweep, from the listing it started with to the one it left; SweepPages and Sweep ensure it, EachPassEnds unpacks it |
| Walk.EachPassEnds | index.js:36-91 | every pass of a sweep, whatever the passes before it did (one that gave up included), submits exactly when the page it is shown has rows its rule ticks, leaves none of them there unless it gives up, reports EmptyPage exactly when it leaves the page empty, and gives up only right after a failed submission |
| Walk.ChainStep | index.js:181-182 | a proof helper, not a promise of the source: a page's delete pass and retry pass, each the replay of its submissions and each ended as Ended says, extend the chain of listings from the sweep's first to its current one |
| Walk.NextPage | index.js:176-182 | one iteration of the page loop: the page's two passes extend the reports, the submission blocks and the chain of listings, and everything the sweep states so far carries over to the next page down |
| Walk.SweepPages | index.js:176-183 | the loop from the last page down to 1 runs the passes in the order Visits gives; each report is the sum of its own block of submissions, and the log gains those blocks one after another, taking the outcomes in turn; with no failing outcome ahead no pass gives up; a row neither family ticks is never removed; nothing either family ticks is left when no pass gave up and the last page covers the listing; the listings pass by pass form a chain from the original listing to the one left, each the replay of that pass's submissions, each of which ticked what its rule ticks on the page shown, and each pass ended as Ended says, so every pass, after one that gave up too, runs until its page is clean or empty or it gives up on a failure |
| Walk.Sweep | index.js:156-183 | the last page number is 1 without a last link, else the parsed number; a last link without a page number stops the sweep before any pass, changing no row, log entry or outcome; otherwise the passes run from the last page down, their submissions fill the log report by report and take the outcomes in turn, and rows neither family ticks survive in order; with no failing outcome ahead, a sweep whose last page covers the listing leaves no row the discard or retry rules would tick; the listing left is every pass's submissions replayed in turn, each ticked as shown, and every pass ended as Ended says (EachPassEnds), so the reports and the listing left are fixed by the listing, the outcomes and the pager |

## Left out

- Environment checks, login and browser start-up (index.js:1-30) are configuration and I/O. The DOMAIN host is a parameter of `PageUrl`.
- Reading the DOM is not modelled: `page.$$`, the `textContent` lookups and `trim()`. A `Row` holds the job and error texts already trimmed. The listing is the `rows` field of the console.
- Scrolling to the bottom of the page (index.js:75-77, 134-136) does not change the listing and is left out.
- The `Promise.all` race between a click and `waitForNavigation` (index.js:81, 140, 166, 177) is concurrency. A submission either navigates or fails, as the console's `outcomes` sequence says. Once that sequence runs out, submissions succeed.
- The server's side is an assumption. A submission that navigates removes exactly the ticked rows of the page, and later rows move up. A submission that fails changes no row, so the model does not capture a server that applies a batch whose navigation timed out.
- The state of the checkboxes after a failed submission is not modelled. In the browser a failure leaves them ticked, and the next scan clicks them again. The model starts every scan from a freshly loaded page.
- Jobs that die while a sweep is running are not modelled: the listing changes only through the sweep's own submissions.
- The page size is a parameter of the console. The source never states it: the server decides it.
- The infinite outer `while (true)` and the 30-minute wait (index.js:155, 185-187) are timers and non-termination. `Sweep` models one sweep.
- `console.log` and `console.error` output is left out.
- Sweep: when the last link's address does not end in `page=` and digits, `match` returns null and the script throws a TypeError. The model returns `NoPageNumber` before any pass runs instead of ending the process.
- Value: `parseInt` loses precision on numbers above 2^53. Page numbers are modelled as unbounded naturals.
- The navigation to the last page (index.js:166) is represented only by the address the link leads to. The listing it shows is not consulted.
