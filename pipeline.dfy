/** `post_thread` and the bot's start-up: pick a topic, have the thread text
    generated and parsed, stop when there is no post, otherwise get the
    optional media and publish the chain. */
module Pipeline {
  import opened Wrappers
  import opened ThreadText
  import opened Topics
  import opened Media
  import opened Publisher

  /** The answer of the text service: the message content it returned (which
      `generate_thread` strips before handing it on), or an exception. */
  datatype TextOutcome = Text(content: string) | TextError

  /** The answers the outside services give during one run, each in the order
      of the requests. */
  datatype Services = Services(text: TextOutcome, images: seq<ImageOutcome>,
                               media: MediaSteps, posts: seq<PostOutcome>)

  /** Where a run ended: the text request raised (and nothing caught it), the
      text held no post, or the thread was published (fully or in part). */
  datatype Stage = TextRaised | NoPosts | Published

  /** What a run did: the topic it picked, the posts it parsed, the image
      requests and their result, the media id, the post requests issued and
      their result, and the pauses. */
  datatype Run = Run(topic: string, stage: Stage, tweets: seq<string>,
                     imageUrl: Option<string>, imageCalls: nat, imageSleeps: nat,
                     mediaId: Option<string>, sent: seq<PostRequest>, chain: ChainResult,
                     postSleeps: nat)

  /** The services answer every request a run can make. */
  predicate Answers(env: Services) {
    |env.images| >= MaxImageAttempts &&
    (env.text.Text? ==> |env.posts| >= |ParseThread(Strip(env.text.content))|)
  }

  /** `post_thread`, with the topic store as it is when called and `now` the
      clock reading the pick records. */
  method PostThread(store: TopicStore, now: int, env: Services) returns (run: Run)
    requires Answers(env)
    modifies store
    ensures Picked(store.pool, store.used, old(store.ledger), now, run.topic, store.ledger)
    ensures env.text.TextError? <==> run.stage == TextRaised
    ensures run.stage == NoPosts <==> env.text.Text? && '/' !in env.text.content
    ensures run.stage != Published ==>
      run.imageCalls == 0 && run.mediaId == None && run.sent == [] && run.postSleeps == 0
    ensures run.stage == Published ==>
      run.tweets == ParseThread(Strip(env.text.content)) && run.tweets != [] &&
      RetriedImage(env.images, run.imageUrl, run.imageCalls, run.imageSleeps) &&
      run.mediaId == AttachMedia(run.imageUrl, env.media) &&
      Chained(run.tweets, run.mediaId, env.posts, run.sent, run.chain) &&
      run.postSleeps == |run.chain.ids|
  {
    var topic := store.PickTopic(now);
    var none := ChainResult([], None);
    if env.text.TextError? {
      return Run(topic, TextRaised, [], None, 0, 0, None, [], none, 0);
    }
    var thread := Strip(env.text.content);
    var tweets := ParseThread(thread);
    ParseThreadEmptyIffNoSlash(thread);
    StripKeeps(env.text.content, '/');
    if tweets == [] {
      return Run(topic, NoPosts, [], None, 0, 0, None, [], none, 0);
    }
    var imageUrl, imageCalls, imageSleeps := GenerateImage(env.images);
    var mediaId := AttachMedia(imageUrl, env.media);
    var sent, chain, postSleeps := Publish(tweets, mediaId, env.posts);
    run := Run(topic, Published, tweets, imageUrl, imageCalls, imageSleeps, mediaId, sent, chain, postSleeps);
  }

  /** One start of the bot (`python main.py`): open the table as it is on
      disk, read the snapshot of used topics from it, and run `post_thread`
      once; `table'` is the table left on disk. */
  method RunBot(table: map<string, int>, now: int, env: Services) returns (run: Run, table': map<string, int>)
    requires Answers(env)
    ensures Picked(TopicPool, table.Keys, table, now, run.topic, table')
    ensures run.topic != Fallback ==> run.topic in TopicPool && run.topic !in table && run.topic in table'
    ensures run.stage != Published ==> run.sent == []
    ensures run.stage == Published ==>
      env.text.Text? && run.tweets == ParseThread(Strip(env.text.content)) &&
      Chained(run.tweets, run.mediaId, env.posts, run.sent, run.chain)
  {
    var store := new TopicStore.Open(TopicPool, table);
    run := PostThread(store, now, env);
    table' := store.ledger;
    FallbackNotInPool();
  }
}
