/** The in-memory cache of request-defined profiles: a deque of prepared engines, least recently used
    first, and the table of waiters for each key being prepared. */
module ProfileCache {
  import opened Basics
  import opened JsonMerge

  type Key = string
  type RequestId = nat
  type Document = Json

  /** An engine prepared from a document; `build` is the number of the compilation that made it, so two
      equal values are the same shared engine. */
  datatype Engine = Engine(source: Document, build: nat)

  datatype Entry = Entry(key: Key, engine: Engine)

  function Keys(entries: seq<Entry>): (keys: seq<Key>)
    ensures |keys| == |entries|
  {
    seq(|entries|, i requires 0 <= i < |entries| => entries[i].key)
  }

  /** The first position holding `key`, or the length when there is none. */
  function Position(entries: seq<Entry>, key: Key): (i: nat)
    ensures i <= |entries|
    ensures i < |entries| ==> entries[i].key == key
    ensures forall j :: 0 <= j < i ==> entries[j].key != key
  {
    if entries == [] || entries[0].key == key then 0 else 1 + Position(entries[1..], key)
  }

  function Lookup(entries: seq<Entry>, key: Key): Option<Engine> {
    var i := Position(entries, key);
    if i < |entries| then Some(entries[i].engine) else None
  }

  /** The deque after a probe: a hit moves to the back. */
  function Touched(entries: seq<Entry>, key: Key): seq<Entry> {
    var i := Position(entries, key);
    if i < |entries| then entries[..i] + entries[i + 1..] + [entries[i]] else entries
  }

  /** The deque after an insertion: the front goes when the length equals the capacity. */
  function Pushed(capacity: nat, entries: seq<Entry>, entry: Entry): seq<Entry> {
    (if |entries| == capacity && entries != [] then entries[1..] else entries) + [entry]
  }

  function WaitersOf(pending: map<Key, seq<RequestId>>, key: Key): seq<RequestId> {
    if key in pending then pending[key] else []
  }

  class DynamicProfileCache {
    const capacity: nat
    var entries: seq<Entry>
    var pending: map<Key, seq<RequestId>>

    constructor (capacity: nat)
      ensures this.capacity == capacity && entries == [] && pending == map[]
    {
      this.capacity := capacity;
      entries := [];
      pending := map[];
    }

    method Get(key: Key) returns (engine: Option<Engine>)
      modifies this`entries
      ensures engine == Lookup(old(entries), key)
      ensures entries == Touched(old(entries), key)
    {
      var index := Position(entries, key);
      if index == |entries| {
        return None;
      }
      var entry := entries[index];
      entries := entries[..index] + entries[index + 1..];
      engine := Some(entry.engine);
      entries := entries + [entry];
    }

    method Insert(key: Key, engine: Engine)
      modifies this`entries
      ensures entries == Pushed(capacity, old(entries), Entry(key, engine))
    {
      if |entries| == capacity {
        if entries != [] {
          entries := entries[1..];
        }
      }
      entries := entries + [Entry(key, engine)];
    }

    /** Joins the waiters of a key; the caller leads the flight when there were none. */
    method Join(key: Key, sender: RequestId) returns (leader: bool)
      modifies this`pending
      ensures leader <==> WaitersOf(old(pending), key) == []
      ensures pending == old(pending)[key := WaitersOf(old(pending), key) + [sender]]
    {
      var waiters := if key in pending then pending[key] else [];
      leader := |waiters| == 0;
      waiters := waiters + [sender];
      pending := pending[key := waiters];
    }

    /** Removes the key's waiters for its leader to answer. */
    method TakeWaiters(key: Key) returns (waiters: seq<RequestId>)
      modifies this`pending
      ensures waiters == WaitersOf(old(pending), key)
      ensures pending == old(pending) - {key}
    {
      waiters := if key in pending then pending[key] else [];
      pending := pending - {key};
    }
  }

  // ----- the cache against the order in which keys were used -----

  /** The distinct keys of a log of uses, in the order of their last use. */
  function Recent(log: seq<Key>): seq<Key> {
    if log == [] then []
    else if log[0] in log[1..] then Recent(log[1..])
    else [log[0]] + Recent(log[1..])
  }

  function Tail(s: seq<Key>, n: nat): seq<Key> {
    if |s| <= n then s else s[|s| - n..]
  }

  /** The last `n` distinct keys used. */
  function MostRecent(log: seq<Key>, n: nat): seq<Key> { Tail(Recent(log), n) }

  /** The keys with the one at place i used again. */
  function MovedToEnd(keys: seq<Key>, i: nat): seq<Key>
    requires i < |keys|
  {
    keys[..i] + keys[i + 1..] + [keys[i]]
  }

  /** Where `key` was last used, or -1. */
  function LastUse(log: seq<Key>, key: Key): (at: int)
    ensures -1 <= at < |log|
  {
    if log == [] then -1
    else if log[|log| - 1] == key then |log| - 1
    else LastUse(log[..|log| - 1], key)
  }

  function Without(s: seq<Key>, key: Key): seq<Key> {
    if s == [] then []
    else if s[0] == key then Without(s[1..], key)
    else [s[0]] + Without(s[1..], key)
  }

  lemma {:induction false} WithoutAbsent(s: seq<Key>, key: Key)
    requires key !in s
    ensures Without(s, key) == s
  {
    if s != [] { WithoutAbsent(s[1..], key); }
  }

  lemma {:induction false} WithoutAt(s: seq<Key>, i: nat)
    requires Distinct(s) && i < |s|
    ensures Without(s, s[i]) == s[..i] + s[i + 1..]
  {
    if i == 0 {
      WithoutAbsent(s[1..], s[0]);
    } else {
      var rest := s[1..];
      assert Distinct(rest) by {
        forall j, k | 0 <= j < k < |rest| ensures rest[j] != rest[k] {
          assert s[j + 1] != s[k + 1];
        }
      }
      WithoutAt(rest, i - 1);
      assert [s[0]] + (rest[..i - 1] + rest[i..]) == s[..i] + s[i + 1..];
    }
  }

  lemma {:induction false} RecentAll(log: seq<Key>)
    ensures Distinct(Recent(log))
    ensures forall k :: k in Recent(log) <==> k in log
  {
    if log != [] {
      RecentAll(log[1..]);
      forall k ensures k in log <==> k == log[0] || k in log[1..] {
        if k in log {
          var i :| 0 <= i < |log| && log[i] == k;
          assert i > 0 ==> log[1..][i - 1] == k;
        }
      }
    }
  }

  /** One more use moves its key to the end. */
  lemma {:induction false} RecentSnoc(log: seq<Key>, key: Key)
    ensures Recent(log + [key]) == Without(Recent(log), key) + [key]
  {
    if log == [] {
      assert Recent([key][1..]) == [];
    } else {
      assert (log + [key])[1..] == log[1..] + [key];
      RecentSnoc(log[1..], key);
      RecentAll(log[1..]);
      if log[0] in log[1..] {
        assert log[0] in log[1..] + [key];
      } else if log[0] == key {
        assert log[0] in log[1..] + [key];
        assert Recent(log + [key]) == Recent(log[1..] + [key]);
      } else {
        assert log[0] !in log[1..] + [key];
        assert Recent(log)[1..] == Recent(log[1..]);
        var rest := Without(Recent(log[1..]), key);
        assert ([log[0]] + rest) + [key] == [log[0]] + (rest + [key]);
      }
    }
  }

  ghost predicate OrderedByUse(log: seq<Key>, r: seq<Key>) {
    forall i, j :: 0 <= i < j < |r| ==> LastUse(log, r[i]) < LastUse(log, r[j])
  }

  lemma OrderedRemoval(log: seq<Key>, r: seq<Key>, at: nat)
    requires OrderedByUse(log, r) && at < |r|
    ensures OrderedByUse(log, r[..at] + r[at + 1..])
  {
    var rest := r[..at] + r[at + 1..];
    forall i, j | 0 <= i < j < |rest| ensures LastUse(log, rest[i]) < LastUse(log, rest[j]) {
      assert rest[i] == r[if i < at then i else i + 1] && rest[j] == r[if j < at then j else j + 1];
    }
  }

  /** Using a key that is there moves it to the end. */
  lemma RecentMoves(log: seq<Key>, at: nat)
    requires at < |Recent(log)|
    ensures Recent(log + [Recent(log)[at]]) == MovedToEnd(Recent(log), at)
    ensures Recent(log)[at] !in Recent(log)[..at] + Recent(log)[at + 1..]
  {
    var r := Recent(log);
    RecentAll(log);
    RecentSnoc(log, r[at]);
    WithoutAt(r, at);
  }

  /** Using a key that is not there adds it at the end. */
  lemma RecentAdds(log: seq<Key>, key: Key)
    requires key !in Recent(log)
    ensures Recent(log + [key]) == Recent(log) + [key]
  {
    RecentSnoc(log, key);
    WithoutAbsent(Recent(log), key);
  }

  lemma RecentOrderedSnoc(init: seq<Key>, last: Key)
    requires OrderedByUse(init, Recent(init))
    ensures OrderedByUse(init + [last], Recent(init + [last]))
  {
    var r := Recent(init);
    if last in r {
      var at :| 0 <= at < |r| && r[at] == last;
      RecentMoves(init, at);
      OrderedRemoval(init, r, at);
    } else {
      RecentAdds(init, last);
    }
  }

  lemma {:induction false} RecentOrdered(log: seq<Key>)
    ensures OrderedByUse(log, Recent(log))
  {
    if log != [] {
      var init, last := log[..|log| - 1], log[|log| - 1];
      assert log == init + [last];
      RecentOrdered(init);
      RecentOrderedSnoc(init, last);
    }
  }

  lemma KeysMoved(entries: seq<Entry>, i: nat)
    requires i < |entries|
    ensures Keys(entries[..i] + entries[i + 1..] + [entries[i]]) == MovedToEnd(Keys(entries), i)
  {
  }

  lemma KeysTouched(entries: seq<Entry>, key: Key)
    requires Position(entries, key) < |entries|
    ensures Keys(Touched(entries, key)) == MovedToEnd(Keys(entries), Position(entries, key))
    ensures Keys(entries)[Position(entries, key)] == key
  {
    KeysMoved(entries, Position(entries, key));
  }

  lemma RecentTouched(log: seq<Key>, n: nat, i: nat)
    requires i < |MostRecent(log, n)|
    ensures MostRecent(log + [MostRecent(log, n)[i]], n) == MovedToEnd(MostRecent(log, n), i)
  {
    var r := Recent(log);
    RecentMoves(log, |r| - |Tail(r, n)| + i);
  }

  /** A hit on an exact cache of the most recent keys leaves it exact. */
  lemma TouchedRefines(log: seq<Key>, capacity: nat, entries: seq<Entry>, key: Key)
    requires Keys(entries) == MostRecent(log, capacity)
    requires Position(entries, key) < |entries|
    ensures Keys(Touched(entries, key)) == MostRecent(log + [key], capacity)
  {
    KeysTouched(entries, key);
    RecentTouched(log, capacity, Position(entries, key));
  }

  /** The keys kept once another one comes in. */
  function Joined(keys: seq<Key>, n: nat, key: Key): seq<Key> {
    (if |keys| == n && keys != [] then keys[1..] else keys) + [key]
  }

  /** Moving an element from before the tail pushes the tail by one, like a new element. */
  lemma TailReplaced(r: seq<Key>, n: nat, at: nat)
    requires n > 0 && at < |r| - |Tail(r, n)|
    ensures Tail(MovedToEnd(r, at), n) == Joined(Tail(r, n), n, r[at])
  {}

  lemma BeforeTail(r: seq<Key>, n: nat, key: Key) returns (at: nat)
    requires key in r && key !in Tail(r, n)
    ensures at < |r| - |Tail(r, n)| && r[at] == key
  {
    var front := r[..|r| - |Tail(r, n)|];
    assert r == front + Tail(r, n);
    assert key in front;
    at :| at < |front| && front[at] == key;
  }

  /** The keys of a bounded log of uses after one more, absent from the ones kept. */
  lemma RecentPushed(log: seq<Key>, n: nat, key: Key)
    requires n > 0 && key !in MostRecent(log, n)
    ensures MostRecent(log + [key], n) == Joined(MostRecent(log, n), n, key)
  {
    var r := Recent(log);
    if key in r {
      var at := BeforeTail(r, n, key);
      RecentMoves(log, at);
      TailReplaced(r, n, at);
    } else {
      RecentAdds(log, key);
    }
  }

  /** Inserting an absent key leaves it exact: the entry pushed out is the key used least recently. */
  lemma PushedRefines(log: seq<Key>, capacity: nat, entries: seq<Entry>, entry: Entry)
    requires capacity > 0
    requires Keys(entries) == MostRecent(log, capacity)
    requires entry.key !in Keys(entries)
    ensures Keys(Pushed(capacity, entries, entry)) == MostRecent(log + [entry.key], capacity)
  {
    RecentPushed(log, capacity, entry.key);
  }

  /** In an exact cache the front entry was last used before every other one. */
  lemma FrontIsLeastRecentlyUsed(log: seq<Key>, capacity: nat, entries: seq<Entry>)
    requires Keys(entries) == MostRecent(log, capacity)
    ensures forall j :: 0 < j < |entries| ==> LastUse(log, entries[0].key) < LastUse(log, entries[j].key)
  {
    RecentOrdered(log);
    var r := Recent(log);
    forall j | 0 < j < |entries| ensures LastUse(log, entries[0].key) < LastUse(log, entries[j].key) {
      var skip := |r| - |entries|;
      assert Keys(entries)[0] == r[skip] && Keys(entries)[j] == r[skip + j];
    }
  }
}
