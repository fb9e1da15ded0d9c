# Thread bot model

A Dafny model of the core of an automated thread-posting bot (`main.py`). One run of the bot does these steps in order:

1. It picks a topic from a fixed pool, skipping topics already recorded in the `used_topics` table, and records the pick.
2. It asks a text service for a numbered thread and parses the reply into post texts.
3. If there are no post texts, it exits without doing anything else.
4. It asks an image service for an illustration, with up to three attempts.
5. It downloads and uploads that image to get a media id. This is best effort.
6. It publishes the posts as a reply chain. The first post carries the media, and the first failed post stops the chain.

The outside services are replaced by the answers they give, in the order they are asked:

- the text reply or an exception;
- the outcome of each image attempt;
- how the download and upload steps went;
- the outcome of each post request.

Sleeps are counted rather than performed. The clock reading is a parameter. `random.choice` is a nondeterministic choice among the available topics.

Modules follow the steps of a run:

- `ThreadText` is the parser. It models Python's `str.strip`, `str.split('\n')` and the filter comprehension.
- `Topics` holds the pool, the fallback topic, and the class `TopicStore`. The class keeps the table as a `map` that `PickTopic` updates in place, and the snapshot of used topics read at start-up.
- `Media` models the image retry loop and the media-id rule.
- `Publisher` models the chained posting loop as a method with a `while` loop that records every request it issues.
- `Pipeline` covers `post_thread` and one start of the bot.
- `Wrappers` holds `Option`.

## Model

| member | source | states |
|---|---|---|
| ThreadText.TrimLeft | main.py:104 | `lstrip` yields a suffix of the line that does not start with white space |
| ThreadText.TrimRight | main.py:104 | `rstrip` yields a prefix of the line that does not end with white space |
| ThreadText.TrimLeftRemovesSpace | main.py:104 | everything `lstrip` removes is white space |
| ThreadText.TrimRightRemovesSpace | main.py:104 | everything `rstrip` removes is white space |
| ThreadText.Strip | main.py:104 | a stripped line is no longer than the line and neither starts nor ends with white space; white space is `ThreadText.IsSpace`, the characters Python's `str.isspace` accepts, which is what `t.strip()` removes |
| ThreadText.StripUnchanged | main.py:104 | a line that neither starts nor ends with white space is its own strip |
| ThreadText.StripIdempotent | main.py:104 | stripping twice is the same as stripping once |
| ThreadText.StripKeeps | main.py:104 | stripping adds no character and keeps every non-space character |
| ThreadText.Split | main.py:104 | splitting on a line break gives at least one piece, and no piece holds a line break |
| ThreadText.JoinSplit | main.py:104 | joining the pieces with the separator gives back the text |
| ThreadText.SplitJoin | main.py:104 | splitting a join of pieces that contain no separator gives back those pieces |
| ThreadText.InJoin | main.py:104 | a non-separator character is in a join exactly when it is in one of the pieces |
| ThreadText.KeepIffSlash | main.py:104 | `ThreadText.Keep` is the comprehension's test: the stripped line is not empty and the unstripped line contains '/'; it holds exactly when the line contains '/', and exactly when its strip does |
| ThreadText.FilterLines | main.py:104 | every output is non-empty, has no white space at either end, and contains '/'; there are no more outputs than lines |
| ThreadText.Positions | main.py:104 | the positions of the elements that pass a test: all of them, nothing else, in increasing order |
| ThreadText.FilterLinesExact | main.py:104 | output k is the stripped line at the k-th kept position |
| ThreadText.ParseThread | main.py:104 | every post is non-empty, has no white space at either end, contains '/', and holds no line break |
| ThreadText.ParseThreadIsOrderedFilter | main.py:104 | the posts are exactly the stripped lines that pass the filter, in their original relative order |
| ThreadText.FilterLinesEmpty | main.py:104-105 | there are no posts exactly when no line passes the filter |
| ThreadText.ParseThreadEmptyIffNoSlash | main.py:104-107 | the parser finds no post exactly when the text contains no '/' |
| ThreadText.FilterLinesSnoc | main.py:104 | appending a line appends its strip to the output if it passes the filter, and nothing otherwise |
| ThreadText.ParseThreadExample | main.py:104 | `"1/ Hello\n\nNotice\n2/ World"` parses to `["1/ Hello", "2/ World"]` |
| Topics.FallbackNotInPool | main.py:40-56 | the fallback topic is not a pool topic |
| Topics.Available | main.py:54 | a topic is available exactly when it is in the pool and not used |
| Topics.InsertOrIgnore | main.py:58 | insert-or-ignore on the primary key adds exactly the topic, keeps every existing row, stores the date for a new topic, and changes nothing for a known one |
| Topics.TopicStore.Open | main.py:31-37 | at start-up the snapshot of used topics is exactly the table's topics |
| Topics.TopicStore.PickTopic | main.py:53-60 | with nothing available: returns the fallback and writes nothing; otherwise: returns a pool topic missing from the snapshot and records it with the clock reading; the table only grows and no row changes |
| Topics.Record | main.py:58 | after a series of picks, the table holds every earlier row with its date unchanged, and every picked topic |
| Topics.RecordAddsOnlyPicks | main.py:58 | a topic the series added to the table is one of the picked topics |
| Topics.FreshPicksSnoc | main.py:53-60 | a series of fresh runs stays fresh when the next pick is available in the table the series left |
| Topics.RunExtendsFreshPicks | main.py:31-60 | a run of the bot that does not fall back, started on the table a series of fresh runs left, extends the series by its pick, and the table it leaves is the one the longer series records |
| Topics.PickUsesUpOne | main.py:54-58 | recording an available topic removes exactly that topic from the unused pool topics |
| Topics.FreshPicksUseUpPool | main.py:53-60 | each fresh run (a new start that rereads the table) uses up exactly one unused pool topic |
| Topics.FreshPicksDistinct | main.py:53-60 | no fresh run repeats the topic of an earlier one |
| Topics.AllUsedNoneAvailable | main.py:54-55 | when every pool topic is used, nothing is available |
| Topics.NoneUnusedNoneAvailable | main.py:54-55 | when the table holds every pool topic, nothing is available |
| Topics.PoolExhausted | main.py:53-60 | after as many fresh runs as there were unused topics, the next run falls back |
| Media.FirstGenerated | main.py:85-92 | the first attempt among the first n that returned an image: it succeeded and every earlier one failed; None means all n failed |
| Media.FirstGeneratedStable | main.py:85-92 | looking at more attempts does not move a first success already found |
| Media.GenerateImage | main.py:85-98 | at most 3 requests; stops at the first success and returns its URL; after 3 failures returns None; exactly one sleep between consecutive attempts and none after the last |
| Media.AttachMedia | main.py:110-125 | the media id is present exactly when the URL was truthy and the download, the save, the upload and the file removal all went through; it is then the id the upload returned |
| Media.ImageFailuresGiveNoMedia | main.py:85-98 | three failed image requests give no URL, 3 calls and 2 sleeps, and no media id whatever the later steps would do |
| Publisher.FirstPostMedia | main.py:134 | the first post attaches the media id exactly when it is present and not empty |
| Publisher.FirstPostError | main.py:128-145 | the first failed post among the first n: it failed and every earlier one went out; None means none failed |
| Publisher.FirstPostErrorStable | main.py:128-145 | looking at more posts does not move a failure already found |
| Publisher.RequestsStep | main.py:131-140 | a request with the next text, and the right media and reply link, extends a well-formed request list |
| Publisher.AnsweredStep | main.py:141 | the id the service returns for the next post extends the id list |
| Publisher.Publish | main.py:128-146 | request i carries text i; post 0 carries the truthy media id and no reply link; post i>0 carries no media and replies to the id of post i-1; requests stop after the first failure; the ids are those of the posts before it; one sleep per post that went out |
| Publisher.ChainedIsDeterministic | main.py:128-146 | the description of the posting loop fixes its requests and result completely |
| Publisher.FailureStopsChain | main.py:143-145 | if post k fails, exactly k posts went out with the service's ids, post k was attempted, and no later post was |
| Pipeline.PostThread | main.py:100-147 | a text exception ends the run; no '/' in the text means no posts, no image request, no media, no post request; otherwise the posts are the parsed stripped text, the image step retries as above, the media rule holds, and the posts are published as a chain |
| Pipeline.RunBot | main.py:31-60 | one start of the bot: the pick follows the pick rule against the table on disk; a picked non-fallback topic was not in the table and is there afterwards; nothing is posted unless the run reached publishing |

## Left out

- The OpenAI, xAI and tweepy clients and `requests.get` (main.py:20-28, 75-81, 87-91, 114, 117-120, 132-140). They are network calls. Each is modelled only by the answers it gives.
- SQLite connection, table creation and commit (main.py:31-37, 58-59). The table is an in-memory `map` from topic to date. Store failures are not modelled: a raising `execute` or `commit` in `pick_topic` would end the run before any text request, but `Topics.TopicStore.PickTopic` always succeeds.
- Environment variables and dotenv (main.py:10-18). These are configuration I/O.
- `time.sleep`, `time.time` and `random.choice`. They are a sleep count, a clock parameter and a nondeterministic choice.
- Prompt text (main.py:63-74, 84) and all `print` output. The message at main.py:147 is printed even after a failed post, so it is not a status.
- The temporary file `temp.jpg`. Writing and removing it are single success flags in `Media.MediaSteps`. No cleanup guarantee is stated, because the code removes the file only on the success path.
- Media.GenerateImage: needs at least three image answers, and Publisher.Publish needs at least as many post answers as posts. These are totals of given answers, not demands the source makes. They are just enough for every request the code can issue.
- Pipeline.PostThread: the service answers are fixed in advance. They do not depend on the topic or the prompt.
- Topics.TopicStore.PickTopic: within one start of the bot, the snapshot is not refreshed after a pick. The model keeps the snapshot in its own field. Claims across runs assume one start per run (`Topics.FreshPicks`).
- Concurrent runs against the same table are not modelled. The pipeline is sequential.

## Behaviour a reader might not expect

The model follows the code in both places.

- **Sleeps in the posting loop.** One might expect a pause only between consecutive posts, so at most N-1 pauses. The code sleeps after every post that went out, including the last one, and not after a failed one (main.py:141-146). `Publisher.Publish` therefore counts one sleep per successful post.
- **Temporary file cleanup.** One might expect the file to be deleted on every exit path. The code removes it only inside the `try` block, after a successful upload (main.py:121). A failed removal also discards the media id already obtained (main.py:123-125).
