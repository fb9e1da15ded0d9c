/** The topic store: a fixed pool of candidate topics and the `used_topics`
    table that records every topic the bot has picked, with the date it was
    first picked. */
module Topics {

  /** The candidate topics, in the order the bot lists them. */
  const TopicPool: seq<string> := [
    "Why NVIDIA GB200 racks are pushing datacenters toward direct 800V DC power",
    "Liquid immersion cooling is coming to robotaxis — here’s the 2026 roadmap",
    "Training Grok-5 on 100k H100s will consume as much power as 40,000 homes",
    "Tesla’s Cortex cluster: The hidden 1.21 GW datacenter inside",
    "Edge AI in EVs: How Tesla's HW5 is turning cars into mini datacenters",
    "The power crisis: Why AI training clusters need nuclear co-location by 2027",
    "From FSD data to Grok fine-tuning: Tesla's secret EV-AI feedback loop",
    "Datacenter heat reuse for EV charging stations — the $10B opportunity",
    "How xAI’s Memphis supercluster is forcing utilities to rethink EV-scale demand response",
    "800V architectures slashing EV fleet charging costs for robotaxi operators"
  ]

  /** The topic returned once every pool topic has been used; it is never
      recorded. */
  const Fallback: string := "EV + AI + Datacenter news roundup — fresh insights from the frontier"

  /** The fallback is not a pool topic, so a run that falls back records
      nothing a later run could mistake for a used topic. */
  lemma {:induction false} FallbackNotInPool()
    ensures Fallback !in TopicPool
  {
    assert |Fallback| == 68;
    forall i | 0 <= i < |TopicPool| ensures |TopicPool[i]| != 68 {
    }
  }

  /** The pool topics not yet used, in pool order (main.py:54). */
  function Available(pool: seq<string>, used: set<string>): (r: seq<string>)
    ensures |r| <= |pool|
    ensures forall t :: t in r <==> t in pool && t !in used
  {
    if pool == [] then []
    else (if pool[0] !in used then [pool[0]] else []) + Available(pool[1..], used)
  }

  /** `INSERT OR IGNORE` into a table whose primary key is the topic: a new
      topic is added with the given date; a topic already present keeps its
      row, and the table is left as it was. */
  function InsertOrIgnore(table: map<string, int>, topic: string, date: int): (r: map<string, int>)
    ensures r.Keys == table.Keys + {topic}
    ensures forall t :: t in table ==> r[t] == table[t]
    ensures topic !in table ==> r[topic] == date
    ensures topic in table ==> r == table
  {
    if topic in table then table else table[topic := date]
  }

  /** What one call of `pick_topic` does, given the snapshot it reads, the
      table before and after, and the clock: with nothing available it
      returns the fallback and writes nothing; otherwise it returns an
      available topic and records it. */
  ghost predicate Picked(pool: seq<string>, used: set<string>, before: map<string, int>,
                         now: int, topic: string, after: map<string, int>)
  {
    if Available(pool, used) == [] then
      topic == Fallback && after == before
    else
      topic in pool && topic !in used && after == InsertOrIgnore(before, topic, now)
  }

  class TopicStore {
    /** The candidate topics. */
    const pool: seq<string>
    /** The topics read from the table once, when the bot starts; picks do
        not refresh it. */
    const used: set<string>
    /** The `used_topics` table: topic -> date it was first picked. */
    var ledger: map<string, int>

    /** Start-up: the table as found, and the snapshot read from it. */
    constructor Open(pool: seq<string>, table: map<string, int>)
      ensures this.pool == pool && ledger == table && used == table.Keys
    {
      this.pool := pool;
      used := table.Keys;
      ledger := table;
    }

    /** `pick_topic`: a random available topic, recorded with the time `now`;
        the fallback when the pool is used up. */
    method PickTopic(now: int) returns (topic: string)
      modifies this
      ensures Picked(pool, used, old(ledger), now, topic, ledger)
      ensures old(ledger).Keys <= ledger.Keys
      ensures forall t :: t in old(ledger) ==> ledger[t] == old(ledger)[t]
    {
      var available := Available(pool, used);
      if available == [] {
        return Fallback;
      }
      assert available[0] in available;
      topic :| topic in available;
      ledger := InsertOrIgnore(ledger, topic, now);
    }
  }

  /** The pool topics the table does not hold yet. */
  ghost function Unused(pool: seq<string>, table: map<string, int>): set<string> {
    set t | t in pool && t !in table
  }

  /** The table after a series of runs, each recording its pick (topic, date). */
  function Record(table: map<string, int>, picks: seq<(string, int)>): (r: map<string, int>)
    ensures table.Keys <= r.Keys
    ensures forall t :: t in table ==> r[t] == table[t]
    ensures forall i :: 0 <= i < |picks| ==> picks[i].0 in r
  {
    if picks == [] then table
    else
      var n := |picks| - 1;
      var r := InsertOrIgnore(Record(table, picks[..n]), picks[n].0, picks[n].1);
      assert forall i :: 0 <= i < n ==> picks[..n][i] == picks[i];
      r
  }

  /** The only topics a series of picks adds are the picked ones. */
  lemma {:induction false} RecordAddsOnlyPicks(table: map<string, int>, picks: seq<(string, int)>, t: string)
    requires t in Record(table, picks) && t !in table
    ensures exists i :: 0 <= i < |picks| && picks[i].0 == t
  {
    var n := |picks| - 1;
    var front := picks[..n];
    if t != picks[n].0 {
      RecordAddsOnlyPicks(table, front, t);
      var i :| 0 <= i < |front| && front[i].0 == t;
      assert picks[i].0 == t;
    }
  }

  /** Each run started the bot afresh, read the table the earlier runs left,
      and did not fall back. */
  ghost predicate FreshPicks(pool: seq<string>, table: map<string, int>, picks: seq<(string, int)>) {
    forall i :: 0 <= i < |picks| ==> FreshAt(pool, table, picks, i)
  }

  /** Run i picked a topic available in the table the runs before it left. */
  ghost predicate FreshAt(pool: seq<string>, table: map<string, int>, picks: seq<(string, int)>, i: nat)
    requires i < |picks|
  {
    picks[i].0 in Available(pool, Record(table, picks[..i]).Keys)
  }

  /** A run that records an available topic uses up exactly that topic. */
  lemma {:induction false} PickUsesUpOne(pool: seq<string>, before: map<string, int>, topic: string, date: int)
    requires topic in Available(pool, before.Keys)
    ensures topic in Unused(pool, before)
    ensures Unused(pool, InsertOrIgnore(before, topic, date)) == Unused(pool, before) - {topic}
    ensures |Unused(pool, InsertOrIgnore(before, topic, date))| + 1 == |Unused(pool, before)|
  {
    var after := InsertOrIgnore(before, topic, date);
    assert Unused(pool, after) == Unused(pool, before) - {topic};
  }

  /** The earlier runs of a series of fresh runs are themselves fresh. */
  lemma {:induction false} FreshPicksPrefix(pool: seq<string>, table: map<string, int>, picks: seq<(string, int)>, n: nat)
    requires FreshPicks(pool, table, picks)
    requires n <= |picks|
    ensures FreshPicks(pool, table, picks[..n])
  {
    var front := picks[..n];
    forall i | 0 <= i < n ensures FreshAt(pool, table, front, i) {
      assert FreshAt(pool, table, picks, i);
      assert front[..i] == picks[..i];
    }
  }

  /** The table after one more pick is the insert-or-ignore of that pick. */
  lemma {:induction false} RecordSnoc(table: map<string, int>, picks: seq<(string, int)>, pick: (string, int))
    ensures Record(table, picks + [pick]) == InsertOrIgnore(Record(table, picks), pick.0, pick.1)
  {
    assert (picks + [pick])[..|picks|] == picks;
  }

  /** A fresh series stays fresh when the next pick is available in the table
      the series left. */
  lemma {:induction false} FreshPicksSnoc(pool: seq<string>, table: map<string, int>,
                                          picks: seq<(string, int)>, pick: (string, int))
    requires FreshPicks(pool, table, picks)
    requires pick.0 in Available(pool, Record(table, picks).Keys)
    ensures FreshPicks(pool, table, picks + [pick])
  {
    var longer := picks + [pick];
    var n := |picks|;
    forall i | 0 <= i < |longer| ensures FreshAt(pool, table, longer, i) {
      if i < n {
        assert FreshAt(pool, table, picks, i);
        assert longer[..i] == picks[..i];
        assert longer[i] == picks[i];
      } else {
        assert longer[..n] == picks;
      }
    }
  }

  /** A run of the bot on the table a series of fresh runs left, when it does
      not fall back, extends that series by its own pick, and the table it
      leaves is the one the longer series records. */
  lemma {:induction false} RunExtendsFreshPicks(pool: seq<string>, table: map<string, int>,
                                                picks: seq<(string, int)>, now: int,
                                                topic: string, after: map<string, int>)
    requires FreshPicks(pool, table, picks)
    requires Picked(pool, Record(table, picks).Keys, Record(table, picks), now, topic, after)
    requires topic != Fallback
    ensures FreshPicks(pool, table, picks + [(topic, now)])
    ensures Record(table, picks + [(topic, now)]) == after
  {
    var before := Record(table, picks);
    assert Available(pool, before.Keys) != [];
    assert topic in Available(pool, before.Keys);
    FreshPicksSnoc(pool, table, picks, (topic, now));
    RecordSnoc(table, picks, (topic, now));
  }

  /** Every such run uses up one more pool topic. */
  lemma {:induction false} FreshPicksUseUpPool(pool: seq<string>, table: map<string, int>, picks: seq<(string, int)>)
    requires FreshPicks(pool, table, picks)
    ensures |Unused(pool, Record(table, picks))| + |picks| == |Unused(pool, table)|
  {
    if picks != [] {
      var n := |picks| - 1;
      var front := picks[..n];
      FreshPicksPrefix(pool, table, picks, n);
      FreshPicksUseUpPool(pool, table, front);
      var before := Record(table, front);
      var t := picks[n].0;
      assert FreshAt(pool, table, picks, n);
      assert t in Available(pool, before.Keys);
      assert Record(table, picks) == InsertOrIgnore(before, t, picks[n].1);
      PickUsesUpOne(pool, before, t, picks[n].1);
    }
  }

  /** No fresh run repeats the topic of an earlier one. */
  lemma {:induction false} FreshPicksDistinct(pool: seq<string>, table: map<string, int>, picks: seq<(string, int)>)
    requires FreshPicks(pool, table, picks)
    ensures forall i, j :: 0 <= i < j < |picks| ==> picks[i].0 != picks[j].0
  {
    forall i, j | 0 <= i < j < |picks| ensures picks[i].0 != picks[j].0 {
      var before := Record(table, picks[..j]);
      assert picks[..j][i] == picks[i];
      assert picks[i].0 in before;
      assert FreshAt(pool, table, picks, j);
      assert picks[j].0 in Available(pool, before.Keys);
    }
  }

  /** When every pool topic has been used, nothing is available. */
  lemma {:induction false} AllUsedNoneAvailable(pool: seq<string>, used: set<string>)
    requires forall t :: t in pool ==> t in used
    ensures Available(pool, used) == []
  {
    if pool != [] {
      assert forall t :: t in pool[1..] ==> t in pool;
      AllUsedNoneAvailable(pool[1..], used);
    }
  }

  /** When every pool topic is in the table, nothing is available. */
  lemma {:induction false} NoneUnusedNoneAvailable(pool: seq<string>, table: map<string, int>)
    requires |Unused(pool, table)| == 0
    ensures Available(pool, table.Keys) == []
  {
    assert Unused(pool, table) == {};
    forall t | t in pool ensures t in table.Keys {
      assert t !in Unused(pool, table);
    }
    AllUsedNoneAvailable(pool, table.Keys);
  }

  /** Once as many fresh runs as there were unused pool topics have run, the
      next run finds nothing available and falls back. */
  lemma {:induction false} PoolExhausted(pool: seq<string>, table: map<string, int>, picks: seq<(string, int)>)
    requires FreshPicks(pool, table, picks)
    requires |picks| == |Unused(pool, table)|
    ensures Available(pool, Record(table, picks).Keys) == []
  {
    FreshPicksUseUpPool(pool, table, picks);
    NoneUnusedNoneAvailable(pool, Record(table, picks));
  }
}
