/**
  The retry rules of `fetch_json` and `download_file`, over the reply each
  attempt receives.
*/
module Retry {

  import opened Wrappers
  import opened JsonValues
  import opened Text
  import opened AtomicWrite

  /** Both loops run `for attempt in range(3)`. */
  const MAX_ATTEMPTS := 3

  // ---------------------------------------------------------------------------
  // fetch_json

  /**
    What one attempt of `fetch_json` receives: a 404, a parsed body, or an
    exception (no connection, a status `raise_for_status` rejects, a body
    that is not JSON).
  */
  datatype FetchReply = NotFound | Parsed(value: Json) | Failed

  /** The value `fetch_json` returns and the number of attempts it made. */
  datatype Fetched = Fetched(value: Option<Json>, attempts: nat)

  /** The loop from attempt `k` on: a 404 or a parsed body ends it, the last failure gives up. */
  function FetchFrom(reply: nat -> FetchReply, k: nat): Fetched
    requires k < MAX_ATTEMPTS
    decreases MAX_ATTEMPTS - k
  {
    match reply(k)
    case NotFound => Fetched(None, k + 1)
    case Parsed(v) => Fetched(Some(v), k + 1)
    case Failed => if k == MAX_ATTEMPTS - 1 then Fetched(None, k + 1) else FetchFrom(reply, k + 1)
  }

  /** `fetch_json` against a server whose reply to attempt `i` is `reply(i)`. */
  function FetchRule(reply: nat -> FetchReply): (r: Fetched)
    ensures 1 <= r.attempts <= MAX_ATTEMPTS
  {
    FetchFromDecided(reply, 0);
    FetchFrom(reply, 0)
  }

  lemma {:induction false} FetchFromDecided(reply: nat -> FetchReply, k: nat)
    requires k < MAX_ATTEMPTS
    ensures var f := FetchFrom(reply, k);
            && k < f.attempts <= MAX_ATTEMPTS
            && (forall i | k <= i < f.attempts - 1 :: reply(i).Failed?)
            && (f.attempts < MAX_ATTEMPTS ==> !reply(f.attempts - 1).Failed?)
            && f.value == (if reply(f.attempts - 1).Parsed? then Some(reply(f.attempts - 1).value) else None)
    decreases MAX_ATTEMPTS - k
  {
    if reply(k).Failed? && k < MAX_ATTEMPTS - 1 {
      FetchFromDecided(reply, k + 1);
    }
  }

  /**
    The first attempt that does not fail decides: a parsed body is returned,
    a 404 gives `None`; when all three fail, `None` after three attempts.
  */
  lemma FetchRuleDecided(reply: nat -> FetchReply)
    ensures var f := FetchRule(reply);
            && 1 <= f.attempts <= MAX_ATTEMPTS
            && (forall i | 0 <= i < f.attempts - 1 :: reply(i).Failed?)
            && (f.attempts < MAX_ATTEMPTS ==> !reply(f.attempts - 1).Failed?)
            && f.value == (if reply(f.attempts - 1).Parsed? then Some(reply(f.attempts - 1).value) else None)
  {
    FetchFromDecided(reply, 0);
  }

  /** A 404 ends the loop at once with `None`, whatever later attempts would bring. */
  lemma NotFoundStops(reply: nat -> FetchReply, k: nat)
    requires k < MAX_ATTEMPTS && reply(k).NotFound?
    requires forall i | 0 <= i < k :: reply(i).Failed?
    ensures FetchRule(reply) == Fetched(None, k + 1)
  {
    FetchRuleDecided(reply);
  }

  /** Three failures in a row give `None` after exactly three attempts. */
  lemma AllFailedGivesUp(reply: nat -> FetchReply)
    requires forall i | 0 <= i < MAX_ATTEMPTS :: reply(i).Failed?
    ensures FetchRule(reply) == Fetched(None, MAX_ATTEMPTS)
  {
    FetchRuleDecided(reply);
  }

  // ---------------------------------------------------------------------------
  // download_file

  /**
    What one attempt of `download_file` receives: a response with its status
    and the whole streamed body, or an exception while connecting or streaming.
  */
  datatype DownloadReply = Response(status: int, body: seq<byte>) | Broken

  /**
    The result of `download_file`, the number of attempts, and the body that
    replaces the destination, if one does.
  */
  datatype Downloaded = Downloaded(ok: bool, attempts: nat, stored: Option<seq<byte>>)

  /** The loop from attempt `k` on: any response ends it, the last exception gives up. */
  function DownloadFrom(reply: nat -> DownloadReply, k: nat): Downloaded
    requires k < MAX_ATTEMPTS
    decreases MAX_ATTEMPTS - k
  {
    match reply(k)
    case Response(status, body) =>
      if status != 200 then Downloaded(false, k + 1, None) else Downloaded(true, k + 1, Some(body))
    case Broken =>
      if k == MAX_ATTEMPTS - 1 then Downloaded(false, k + 1, None) else DownloadFrom(reply, k + 1)
  }

  /**
    `download_file` for a destination whose current size is `existing`
    (`None` when it does not exist).
  */
  function DownloadRule(existing: Option<nat>, force: bool, reply: nat -> DownloadReply): (r: Downloaded)
    ensures r.attempts <= MAX_ATTEMPTS && (r.stored.Some? ==> r.ok)
  {
    if existing.Some? && !force && existing.value > 0 then Downloaded(true, 0, None)
    else
      DownloadFromDecided(reply, 0);
      DownloadFrom(reply, 0)
  }

  lemma {:induction false} DownloadFromDecided(reply: nat -> DownloadReply, k: nat)
    requires k < MAX_ATTEMPTS
    ensures var d := DownloadFrom(reply, k);
            && k < d.attempts <= MAX_ATTEMPTS
            && (forall i | k <= i < d.attempts - 1 :: reply(i).Broken?)
            && (d.attempts < MAX_ATTEMPTS ==> reply(d.attempts - 1).Response?)
            && (d.ok <==> reply(d.attempts - 1).Response? && reply(d.attempts - 1).status == 200)
            && d.stored == (if d.ok then Some(reply(d.attempts - 1).body) else None)
    decreases MAX_ATTEMPTS - k
  {
    if reply(k).Broken? && k < MAX_ATTEMPTS - 1 {
      DownloadFromDecided(reply, k + 1);
    }
  }

  /**
    A non-empty file already there is kept without a request unless forced.
    Otherwise the first attempt that gets a response decides: status 200
    stores its body and succeeds, any other status fails at once; three
    exceptions fail. Only a successful download stores anything.
  */
  lemma DownloadRuleDecided(existing: Option<nat>, force: bool, reply: nat -> DownloadReply)
    ensures var d := DownloadRule(existing, force, reply);
            && (d.attempts == 0 <==> existing.Some? && existing.value > 0 && !force)
            && (d.attempts == 0 ==> d.ok && d.stored == None)
            && d.attempts <= MAX_ATTEMPTS
            && (d.attempts > 0 ==>
                  && (forall i | 0 <= i < d.attempts - 1 :: reply(i).Broken?)
                  && (d.attempts < MAX_ATTEMPTS ==> reply(d.attempts - 1).Response?)
                  && (d.ok <==> reply(d.attempts - 1).Response? && reply(d.attempts - 1).status == 200)
                  && d.stored == (if d.ok then Some(reply(d.attempts - 1).body) else None))
  {
    if !(existing.Some? && !force && existing.value > 0) {
      DownloadFromDecided(reply, 0);
    }
  }

  /** A status other than 200 on the first attempt fails without a retry. */
  lemma BadStatusNoRetry(existing: Option<nat>, force: bool, reply: nat -> DownloadReply)
    requires !(existing.Some? && existing.value > 0 && !force)
    requires reply(0).Response? && reply(0).status != 200
    ensures DownloadRule(existing, force, reply) == Downloaded(false, 1, None)
  {
    DownloadRuleDecided(existing, force, reply);
  }
}
