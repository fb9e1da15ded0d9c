/** The thread publisher: the posts go out one by one, the first with the
    media (if any), each later one as a reply to the post before it; the first
    failure ends the thread. */
module Publisher {
  import opened Wrappers

  /** The answer to one `create_tweet` call: the new post's id, or an
      exception. */
  datatype PostOutcome = Posted(id: string) | PostError

  /** One `create_tweet` call: its text, the media id it attaches and the post
      it replies to. */
  datatype PostRequest = PostRequest(text: string, media: Option<string>, replyTo: Option<string>)

  /** The ids of the posts that went out, in order, and the index of the post
      that failed, if one did. */
  datatype ChainResult = ChainResult(ids: seq<string>, failedAt: Option<nat>)

  /** The first post attaches the media id only when it is truthy, that is
      present and not empty (main.py:134). */
  function FirstPostMedia(mediaId: Option<string>): (media: Option<string>)
    ensures media.Some? <==> mediaId.Some? && mediaId.value != []
    ensures media.Some? ==> media == mediaId
  {
    match mediaId
    case Some(m) => if m != [] then Some(m) else None
    case None => None
  }

  /** The first of the first `n` posts that failed, if any. */
  function FirstPostError(outcomes: seq<PostOutcome>, n: nat): (r: Option<nat>)
    requires n <= |outcomes|
    ensures r.Some? ==>
      r.value < n && outcomes[r.value].PostError? &&
      forall j :: 0 <= j < r.value ==> outcomes[j].Posted?
    ensures r.None? ==> forall j :: 0 <= j < n ==> outcomes[j].Posted?
  {
    if n == 0 then None
    else
      match FirstPostError(outcomes, n - 1)
      case Some(k) => Some(k)
      case None => if outcomes[n - 1].PostError? then Some(n - 1) else None
  }

  /** Looking at more posts does not change a failure already found among
      fewer. */
  lemma {:induction false} FirstPostErrorStable(outcomes: seq<PostOutcome>, k: nat, n: nat)
    requires k < n <= |outcomes|
    requires FirstPostError(outcomes, k) == None && outcomes[k].PostError?
    ensures FirstPostError(outcomes, n) == Some(k)
  {
    if n > k + 1 {
      FirstPostErrorStable(outcomes, k, n - 1);
    }
  }

  /** The requests issued so far, given the ids the earlier posts got:
      request i carries text i; request 0 attaches the (truthy) media id and
      replies to nothing; request i > 0 attaches nothing and replies to the id
      post i-1 got. */
  ghost predicate Requests(tweets: seq<string>, mediaId: Option<string>, sent: seq<PostRequest>, ids: seq<string>)
    requires |sent| <= |tweets| && |sent| <= |ids| + 1
  {
    (forall i :: 0 <= i < |sent| ==> sent[i].text == tweets[i]) &&
    (|sent| > 0 ==> sent[0].media == FirstPostMedia(mediaId) && sent[0].replyTo == None) &&
    (forall i :: 1 <= i < |sent| ==> sent[i].media == None && sent[i].replyTo == Some(ids[i - 1]))
  }

  /** The ids are those the post service answered, in order. */
  ghost predicate Answered(outcomes: seq<PostOutcome>, ids: seq<string>)
    requires |ids| <= |outcomes|
  {
    forall i :: 0 <= i < |ids| ==> outcomes[i] == Posted(ids[i])
  }

  /** How a thread of `tweets` is published, given the media id and the post
      service's answers in order: the requests are as `Requests` describes,
      issued up to and including the first failure and none after it; the
      ids are those of the posts that went out, which are all the posts
      before the first failure (all of them when none fails). */
  ghost predicate Chained(tweets: seq<string>, mediaId: Option<string>, outcomes: seq<PostOutcome>,
                          sent: seq<PostRequest>, result: ChainResult)
    requires |outcomes| >= |tweets|
  {
    result.failedAt == FirstPostError(outcomes, |tweets|) &&
    (match result.failedAt
     case Some(k) => |result.ids| == k && |sent| == k + 1
     case None => |result.ids| == |tweets| && |sent| == |tweets|) &&
    Answered(outcomes, result.ids) &&
    Requests(tweets, mediaId, sent, result.ids)
  }

  /** One more request, made once the ids of all earlier posts are known. */
  lemma {:induction false} RequestsStep(tweets: seq<string>, mediaId: Option<string>, sent: seq<PostRequest>,
                                        ids: seq<string>, request: PostRequest)
    requires |sent| == |ids| < |tweets|
    requires Requests(tweets, mediaId, sent, ids)
    requires request.text == tweets[|sent|]
    requires |sent| == 0 ==> request.media == FirstPostMedia(mediaId) && request.replyTo == None
    requires |sent| > 0 ==> request.media == None && request.replyTo == Some(ids[|sent| - 1])
    ensures Requests(tweets, mediaId, sent + [request], ids)
  {
    var sent' := sent + [request];
    assert forall i :: 0 <= i < |sent| ==> sent'[i] == sent[i];
  }

  /** The next post went out: its id joins the ids. */
  lemma {:induction false} AnsweredStep(outcomes: seq<PostOutcome>, tweets: seq<string>, mediaId: Option<string>,
                                        sent: seq<PostRequest>, ids: seq<string>)
    requires |ids| < |outcomes| && outcomes[|ids|].Posted?
    requires Answered(outcomes, ids)
    requires |sent| == |ids| + 1 <= |tweets| && Requests(tweets, mediaId, sent, ids)
    ensures Answered(outcomes, ids + [outcomes[|ids|].id])
    ensures Requests(tweets, mediaId, sent, ids + [outcomes[|ids|].id])
  {
    var ids' := ids + [outcomes[|ids|].id];
    assert forall i :: 0 <= i < |ids| ==> ids'[i] == ids[i];
  }

  /** The posting loop of `post_thread`: `sent` lists the calls made, in order;
      the count of sleeps stands for the 3-second pause after every post that
      went out. */
  method Publish(tweets: seq<string>, mediaId: Option<string>, outcomes: seq<PostOutcome>)
    returns (sent: seq<PostRequest>, result: ChainResult, sleeps: nat)
    requires |outcomes| >= |tweets|
    ensures Chained(tweets, mediaId, outcomes, sent, result)
    ensures sleeps == |result.ids|
  {
    var previousId: Option<string> := None;
    var ids: seq<string> := [];
    var failedAt: Option<nat> := None;
    sent, sleeps := [], 0;
    var i := 0;
    while i < |tweets|
      invariant 0 <= i <= |tweets|
      invariant |ids| == i && |sent| == i && sleeps == i
      invariant FirstPostError(outcomes, i) == None
      invariant Answered(outcomes, ids) && Requests(tweets, mediaId, sent, ids)
      invariant previousId == if i == 0 then None else Some(ids[i - 1])
    {
      var request := if i == 0 then PostRequest(tweets[i], FirstPostMedia(mediaId), None)
                     else PostRequest(tweets[i], None, previousId);
      RequestsStep(tweets, mediaId, sent, ids, request);
      sent := sent + [request];
      if outcomes[i].PostError? {
        FirstPostErrorStable(outcomes, i, |tweets|);
        failedAt := Some(i);
        break;
      }
      AnsweredStep(outcomes, tweets, mediaId, sent, ids);
      previousId := Some(outcomes[i].id);
      ids := ids + [outcomes[i].id];
      sleeps := sleeps + 1;
      i := i + 1;
    }
    result := ChainResult(ids, failedAt);
  }

  /** The description above leaves no freedom: the requests and the result
      are determined by the thread, the media id and the service's answers. */
  lemma {:induction false} ChainedIsDeterministic(tweets: seq<string>, mediaId: Option<string>, outcomes: seq<PostOutcome>,
                               sent1: seq<PostRequest>, result1: ChainResult,
                               sent2: seq<PostRequest>, result2: ChainResult)
    requires |outcomes| >= |tweets|
    requires Chained(tweets, mediaId, outcomes, sent1, result1)
    requires Chained(tweets, mediaId, outcomes, sent2, result2)
    ensures sent1 == sent2 && result1 == result2
  {
    assert |result1.ids| == |result2.ids|;
    forall i | 0 <= i < |result1.ids| ensures result1.ids[i] == result2.ids[i] {
      assert outcomes[i] == Posted(result1.ids[i]) == Posted(result2.ids[i]);
    }
    assert result1.ids == result2.ids;
    forall i | 0 <= i < |sent1| ensures sent1[i] == sent2[i] {
      if i > 0 {
        assert sent1[i].replyTo == Some(result1.ids[i - 1]);
      }
    }
  }

  /** A failure at post k of the thread: exactly the k posts before it went
      out, the failed post was attempted, and no post after it was. */
  lemma {:induction false} FailureStopsChain(tweets: seq<string>, mediaId: Option<string>, outcomes: seq<PostOutcome>,
                          sent: seq<PostRequest>, result: ChainResult, k: nat)
    requires |outcomes| >= |tweets|
    requires Chained(tweets, mediaId, outcomes, sent, result)
    requires k < |tweets| && outcomes[k].PostError?
    requires forall j :: 0 <= j < k ==> outcomes[j].Posted?
    ensures result.failedAt == Some(k)
    ensures |result.ids| == k && |sent| == k + 1
    ensures forall j :: 0 <= j < k ==> result.ids[j] == outcomes[j].id
  {
    assert FirstPostError(outcomes, k) == None;
    FirstPostErrorStable(outcomes, k, |tweets|);
  }
}
