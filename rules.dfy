/** The two row classifiers of the dead-job triage: which rows the delete pass
    ticks and which rows the retry pass ticks, from a row's job class and its
    error text (both already trimmed). */
module Rules {

  /** The two bulk actions of the morgue form, one pass per action. */
  datatype Action = Delete | Retry

  const LinkCrawlWorker := "LinkCrawlWorker"
  const PushNotificationWorker := "Web::PushNotificationWorker"
  const RedownloadMediaWorker := "RedownloadMediaWorker"

  // The three literals longer than forty characters are written as two
  // concatenated pieces: the value is the same, and the verifier can then
  // look at single characters of them.
  const NoAddress := "HTTP::ConnectionError: " + "failed to connect: No address"
  const AttributesLimit := "ArgumentError: " + "Attributes per element limit exceeded"
  const DepthLimit := "ArgumentError: " + "Document tree depth limit exceeded"

  /** The delete-pass condition, rule by rule as the source writes it:
      six prefixes that hold for any job class, then four rules scoped to a
      job class, two of which demand the whole error text. */
  predicate IsDiscard(job: string, error: string)
  {
    "ActiveRecord::RecordInvalid:" <= error ||
    "Encoding::InvalidByteSequenceError:" <= error ||
    NoAddress <= error ||
    "NoMethodError:" <= error ||
    "URI::InvalidURIError:" <= error ||
    "Zlib::BufError:" <= error ||
    (job == LinkCrawlWorker && error == AttributesLimit) ||
    (job == LinkCrawlWorker && error == DepthLimit) ||
    (job == LinkCrawlWorker && "TypeError: no implicit conversion" <= error) ||
    (job == PushNotificationWorker && "Mastodon::UnexpectedResponseError:" <= error)
  }

  /** The retry-pass condition: two unscoped prefixes and three prefixes
      scoped to a job class. */
  predicate IsRetry(job: string, error: string)
  {
    "Aws::S3::Errors:" <= error ||
    "Mastodon::RaceConditionError:" <= error ||
    (job == LinkCrawlWorker && "Seahorse::Client::NetworkingError:" <= error) ||
    (job == RedownloadMediaWorker && "Aws::S3::MultipartUploadError:" <= error) ||
    (job == RedownloadMediaWorker && "HTTP::TimeoutError:" <= error)
  }

  /** The classifier a pass of the given action uses. */
  predicate Selects(a: Action, job: string, error: string)
  {
    match a
    case Delete => IsDiscard(job, error)
    case Retry => IsRetry(job, error)
  }

  // ---------------------------------------------------------------------
  // The same rules as declarative records: an independent reference
  // definition of the two classifiers, one record per rule.

  datatype Option<T> = None | Some(value: T)

  /** How a rule tests the error text: a left-anchored literal prefix, or the
      whole text. */
  datatype Test = Prefix(literal: string) | Exact(literal: string)

  /** A rule: the job class the row must have, if any, and a test on the error. */
  datatype Rule = Rule(scope: Option<string>, test: Test)

  predicate Holds(r: Rule, job: string, error: string)
  {
    (r.scope.None? || r.scope.value == job) &&
    match r.test
    case Prefix(p) => p <= error
    case Exact(p) => error == p
  }

  predicate AnyHolds(rules: seq<Rule>, job: string, error: string)
  {
    exists i :: 0 <= i < |rules| && Holds(rules[i], job, error)
  }

  /** The discard rules, in the order the source lists them. */
  const DiscardRules: seq<Rule> := [
    Rule(None, Prefix("ActiveRecord::RecordInvalid:")),
    Rule(None, Prefix("Encoding::InvalidByteSequenceError:")),
    Rule(None, Prefix(NoAddress)),
    Rule(None, Prefix("NoMethodError:")),
    Rule(None, Prefix("URI::InvalidURIError:")),
    Rule(None, Prefix("Zlib::BufError:")),
    Rule(Some(LinkCrawlWorker), Exact(AttributesLimit)),
    Rule(Some(LinkCrawlWorker), Exact(DepthLimit)),
    Rule(Some(LinkCrawlWorker), Prefix("TypeError: no implicit conversion")),
    Rule(Some(PushNotificationWorker), Prefix("Mastodon::UnexpectedResponseError:"))
  ]

  /** The retry rules, in the order the source lists them. */
  const RetryRules: seq<Rule> := [
    Rule(None, Prefix("Aws::S3::Errors:")),
    Rule(None, Prefix("Mastodon::RaceConditionError:")),
    Rule(Some(LinkCrawlWorker), Prefix("Seahorse::Client::NetworkingError:")),
    Rule(Some(RedownloadMediaWorker), Prefix("Aws::S3::MultipartUploadError:")),
    Rule(Some(RedownloadMediaWorker), Prefix("HTTP::TimeoutError:"))
  ]

  lemma Witness(rules: seq<Rule>, i: nat, job: string, error: string)
    requires i < |rules| && Holds(rules[i], job, error)
    ensures AnyHolds(rules, job, error)
  {
  }

  /** The delete pass ticks a row exactly when one of the discard rules holds of it. */
  lemma DiscardIsRuleTable(job: string, error: string)
    ensures IsDiscard(job, error) <==> AnyHolds(DiscardRules, job, error)
  {
    if AnyHolds(DiscardRules, job, error) {
      var i :| 0 <= i < |DiscardRules| && Holds(DiscardRules[i], job, error);
      DiscardRuleSound(i, job, error);
    }
    if IsDiscard(job, error) {
      DiscardRuleComplete(job, error);
    }
  }

  lemma DiscardRuleSound(i: nat, job: string, error: string)
    requires i < |DiscardRules| && Holds(DiscardRules[i], job, error)
    ensures IsDiscard(job, error)
  {
    assert i == 0 || i == 1 || i == 2 || i == 3 || i == 4 || i == 5 || i == 6 || i == 7 || i == 8 || i == 9;
  }

  lemma DiscardRuleComplete(job: string, error: string)
    requires IsDiscard(job, error)
    ensures AnyHolds(DiscardRules, job, error)
  {
    var i :=
      if "ActiveRecord::RecordInvalid:" <= error then 0
      else if "Encoding::InvalidByteSequenceError:" <= error then 1
      else if NoAddress <= error then 2
      else if "NoMethodError:" <= error then 3
      else if "URI::InvalidURIError:" <= error then 4
      else if "Zlib::BufError:" <= error then 5
      else if job == LinkCrawlWorker && error == AttributesLimit then 6
      else if job == LinkCrawlWorker && error == DepthLimit then 7
      else if job == LinkCrawlWorker && "TypeError: no implicit conversion" <= error then 8
      else 9;
    Witness(DiscardRules, i, job, error);
  }

  /** The retry pass ticks a row exactly when one of the retry rules holds of it. */
  lemma RetryIsRuleTable(job: string, error: string)
    ensures IsRetry(job, error) <==> AnyHolds(RetryRules, job, error)
  {
    if AnyHolds(RetryRules, job, error) {
      var i :| 0 <= i < |RetryRules| && Holds(RetryRules[i], job, error);
      assert i == 0 || i == 1 || i == 2 || i == 3 || i == 4;
    }
    if IsRetry(job, error) {
      var i :=
        if "Aws::S3::Errors:" <= error then 0
        else if "Mastodon::RaceConditionError:" <= error then 1
        else if job == LinkCrawlWorker && "Seahorse::Client::NetworkingError:" <= error then 2
        else if job == RedownloadMediaWorker && "Aws::S3::MultipartUploadError:" <= error then 3
        else 4;
      Witness(RetryRules, i, job, error);
    }
  }

  // ---------------------------------------------------------------------
  // The two families never overlap.

  /** Neither string is a prefix of the other. */
  predicate Incomparable(p: string, q: string)
  {
    !(p <= q) && !(q <= p)
  }

  lemma DifferAt(p: string, q: string, k: nat)
    requires k < |p| && k < |q| && p[k] != q[k]
    ensures Incomparable(p, q)
  {
  }

  /** No discard literal is a prefix of a retry literal, nor the other way round. */
  lemma LiteralsIncomparable(i: nat, j: nat)
    requires i < |DiscardRules| && j < |RetryRules|
    ensures Incomparable(DiscardRules[i].test.literal, RetryRules[j].test.literal)
  {
    match j
    case 0 => IncomparableToS3Errors(i);
    case 1 => IncomparableToRaceCondition(i);
    case 2 => IncomparableToNetworkingError(i);
    case 3 => IncomparableToMultipartUpload(i);
    case 4 => IncomparableToTimeoutError(i);
  }

  /** `Aws::S3::Errors:` parts from every discard literal at its first or second character. */
  lemma IncomparableToS3Errors(i: nat)
    requires i < |DiscardRules|
    ensures Incomparable(DiscardRules[i].test.literal, RetryRules[0].test.literal)
  {
    var p, q := DiscardRules[i].test.literal, RetryRules[0].test.literal;
    assert i == 0 || i == 1 || i == 2 || i == 3 || i == 4 || i == 5 || i == 6 || i == 7 || i == 8 || i == 9;
    if p[0] != q[0] {
      DifferAt(p, q, 0);
    } else {
      DifferAt(p, q, 1);
    }
  }

  /** `Mastodon::RaceConditionError:` parts from every discard literal at its first or eleventh character. */
  lemma IncomparableToRaceCondition(i: nat)
    requires i < |DiscardRules|
    ensures Incomparable(DiscardRules[i].test.literal, RetryRules[1].test.literal)
  {
    var p, q := DiscardRules[i].test.literal, RetryRules[1].test.literal;
    assert i == 0 || i == 1 || i == 2 || i == 3 || i == 4 || i == 5 || i == 6 || i == 7 || i == 8 || i == 9;
    if p[0] != q[0] {
      DifferAt(p, q, 0);
    } else {
      DifferAt(p, q, 10);
    }
  }

  /** `Seahorse::Client::NetworkingError:` parts from every discard literal at its first character. */
  lemma IncomparableToNetworkingError(i: nat)
    requires i < |DiscardRules|
    ensures Incomparable(DiscardRules[i].test.literal, RetryRules[2].test.literal)
  {
    var p, q := DiscardRules[i].test.literal, RetryRules[2].test.literal;
    assert i == 0 || i == 1 || i == 2 || i == 3 || i == 4 || i == 5 || i == 6 || i == 7 || i == 8 || i == 9;
    DifferAt(p, q, 0);
  }

  /** `Aws::S3::MultipartUploadError:` parts from every discard literal at its first or second character. */
  lemma IncomparableToMultipartUpload(i: nat)
    requires i < |DiscardRules|
    ensures Incomparable(DiscardRules[i].test.literal, RetryRules[3].test.literal)
  {
    var p, q := DiscardRules[i].test.literal, RetryRules[3].test.literal;
    assert i == 0 || i == 1 || i == 2 || i == 3 || i == 4 || i == 5 || i == 6 || i == 7 || i == 8 || i == 9;
    if p[0] != q[0] {
      DifferAt(p, q, 0);
    } else {
      DifferAt(p, q, 1);
    }
  }

  /** `HTTP::TimeoutError:` parts from every discard literal at its first or seventh character. */
  lemma IncomparableToTimeoutError(i: nat)
    requires i < |DiscardRules|
    ensures Incomparable(DiscardRules[i].test.literal, RetryRules[4].test.literal)
  {
    var p, q := DiscardRules[i].test.literal, RetryRules[4].test.literal;
    assert i == 0 || i == 1 || i == 2 || i == 3 || i == 4 || i == 5 || i == 6 || i == 7 || i == 8 || i == 9;
    if p[0] != q[0] {
      DifferAt(p, q, 0);
    } else {
      DifferAt(p, q, 6);
    }
  }

  /** Two prefixes of one text are prefixes of each other, one way or the other. */
  lemma PrefixesOfOneText(p: string, q: string, s: string)
    requires p <= s && q <= s
    ensures p <= q || q <= p
  {
  }

  /** No row is ticked by both passes. */
  lemma Disjoint(job: string, error: string)
    ensures !(IsDiscard(job, error) && IsRetry(job, error))
  {
    DiscardIsRuleTable(job, error);
    RetryIsRuleTable(job, error);
    if IsDiscard(job, error) && IsRetry(job, error) {
      var i :| 0 <= i < |DiscardRules| && Holds(DiscardRules[i], job, error);
      var j :| 0 <= j < |RetryRules| && Holds(RetryRules[j], job, error);
      PrefixesOfOneText(DiscardRules[i].test.literal, RetryRules[j].test.literal, error);
      LiteralsIncomparable(i, j);
      assert false;
    }
  }

  // ---------------------------------------------------------------------
  // The fate of one row over one page visit, and the rules at work.

  /** What one visit of a page does to a row whose passes both converge:
      the delete pass runs first, the retry pass second. */
  datatype Verdict = Discarded | Retried | Kept

  function Classify(job: string, error: string): (v: Verdict)
    ensures v == Discarded <==> IsDiscard(job, error)
    ensures v == Retried <==> IsRetry(job, error)
    ensures v == Kept <==> !IsDiscard(job, error) && !IsRetry(job, error)
  {
    Disjoint(job, error);
    if IsDiscard(job, error) then Discarded
    else if IsRetry(job, error) then Retried
    else Kept
  }

  /** The first characters of every error text the delete pass ticks: enough
      to tell them from every text the retry pass ticks. An error text that
      opens with "Ar" is ticked only under the crawl worker's two exact rules. */
  lemma DiscardOpenings(job: string, e: string)
    requires IsDiscard(job, e)
    ensures |e| > 10
    ensures e[0] in "AEHNUZTM"
    ensures e[0] == 'A' ==> e[1] == 'c' || (job == LinkCrawlWorker && (e == AttributesLimit || e == DepthLimit))
    ensures e[0] == 'H' ==> e[6] == 'C'
    ensures e[0] == 'M' ==> e[10] == 'U'
  {
  }

  /** The first characters of every error text the retry pass ticks. */
  lemma RetryOpenings(job: string, e: string)
    requires IsRetry(job, e)
    ensures |e| > 10
    ensures e[0] in "AMSH"
    ensures e[0] == 'A' ==> e[1] == 'w'
    ensures e[0] == 'H' ==> e[6] == 'T'
    ensures e[0] == 'M' ==> e[10] == 'R'
    ensures e[0] == 'S' ==> e[1] == 'e'
  {
  }

  /** The attribute-limit rule compares the whole text: trailing text defeats it. */
  lemma AttributesLimitIsExact(extra: string)
    requires extra != []
    ensures !IsDiscard(LinkCrawlWorker, AttributesLimit + extra)
  {
    var e := AttributesLimit + extra;
    assert e[0] == 'A' && e[1] == 'r' && |e| > |AttributesLimit| > |DepthLimit|;
    if IsDiscard(LinkCrawlWorker, e) {
      DiscardOpenings(LinkCrawlWorker, e);
    }
  }

  /** The depth-limit rule compares the whole text: trailing text defeats it. */
  lemma DepthLimitIsExact(extra: string)
    requires extra != []
    ensures !IsDiscard(LinkCrawlWorker, DepthLimit + extra)
  {
    var e := DepthLimit + extra;
    assert e[0] == 'A' && e[1] == 'r' && |e| > |DepthLimit|;
    assert e[15] == 'D' && AttributesLimit[15] == 'A';
    if IsDiscard(LinkCrawlWorker, e) {
      DiscardOpenings(LinkCrawlWorker, e);
    }
  }

  /** The two argument-error rules hold under the crawl worker and no other class. */
  lemma ArgumentErrorsNeedCrawlWorker(job: string)
    ensures IsDiscard(LinkCrawlWorker, AttributesLimit) && IsDiscard(LinkCrawlWorker, DepthLimit)
    ensures job != LinkCrawlWorker ==> !IsDiscard(job, AttributesLimit) && !IsDiscard(job, DepthLimit)
  {
    assert AttributesLimit[0] == 'A' && AttributesLimit[1] == 'r';
    assert DepthLimit[0] == 'A' && DepthLimit[1] == 'r';
    if IsDiscard(job, AttributesLimit) {
      DiscardOpenings(job, AttributesLimit);
    }
    if IsDiscard(job, DepthLimit) {
      DiscardOpenings(job, DepthLimit);
    }
  }

  /** A crawl whose document tree is too deep is discarded. */
  lemma DeepDocumentIsDiscarded()
    ensures Classify(LinkCrawlWorker, DepthLimit) == Discarded
  {
  }

  /** A media redownload that timed out is retried. */
  lemma RedownloadTimeoutIsRetried()
    ensures Classify(RedownloadMediaWorker, "HTTP::TimeoutError: connection reset") == Retried
  {
    var e := "HTTP::TimeoutError: connection reset";
    assert e == "HTTP::TimeoutError:" + " connection reset";
    assert e[0] == 'H' && e[6] == 'T';
    if IsDiscard(RedownloadMediaWorker, e) {
      DiscardOpenings(RedownloadMediaWorker, e);
    }
  }

  /** A crawl error no rule names stays in the morgue. */
  lemma UnknownErrorIsKept()
    ensures Classify(LinkCrawlWorker, "SomeOtherError: x") == Kept
  {
    var e := "SomeOtherError: x";
    assert e[0] == 'S' && e[1] == 'o';
    if IsDiscard(LinkCrawlWorker, e) {
      DiscardOpenings(LinkCrawlWorker, e);
    }
    if IsRetry(LinkCrawlWorker, e) {
      RetryOpenings(LinkCrawlWorker, e);
    }
  }
}
