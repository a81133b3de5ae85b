/**
  The parse cache of internal/parser/cache.go: per parser-options LRU caches
  of parsed schedules. `LruState` and its transitions `Touch` and `Insert`
  state what a hit and a miss do; the classes `ParserCache` and `CacheTable`
  are the mutable objects, proved to perform exactly those transitions.
*/
module ParseCache {
  import opened Wrappers
  import opened CronParse
  import opened Collections

  /** The first position of `x` in `s`. */
  function IndexOf<T(==)>(s: seq<T>, x: T): (i: nat)
    requires x in s
    ensures i < |s| && s[i] == x && x !in s[..i]
  {
    if s[0] == x then 0 else 1 + IndexOf(s[1..], x)
  }

  /** A position holding `x` with no `x` before it is the first position of `x`. */
  lemma {:induction false} FirstIndex<T>(s: seq<T>, x: T, i: nat)
    requires i < |s| && s[i] == x && x !in s[..i]
    ensures IndexOf(s, x) == i
  {
    if i > 0 {
      assert s[0] == s[..i][0];
      assert s[1..][..i - 1] == s[..i][1..];
      FirstIndex(s[1..], x, i - 1);
    }
  }

  /** `s` without any occurrence of `x`. */
  function Remove(s: seq<string>, x: string): seq<string>
  {
    if s == [] then []
    else if s[0] == x then Remove(s[1..], x)
    else [s[0]] + Remove(s[1..], x)
  }

  /** The contents of one parser's cache and its access order, oldest first. */
  datatype LruState = LruState(entries: map<string, Schedule>, order: seq<string>)

  /** The order lists each cached spec exactly once. */
  ghost predicate WellFormed(st: LruState) {
    Distinct(st.order) && forall k :: k in st.entries <==> k in st.order
  }

  const EmptyState: LruState := LruState(map[], [])

  /** A well-formed cache holds exactly as many entries as its order lists. */
  lemma SizeIsOrderLength(st: LruState)
    requires WellFormed(st)
    ensures |st.entries| == |st.order|
  {
    DistinctCard(st.order);
    assert st.entries.Keys == set x | x in st.order;
  }

  /** A hit: `spec` moves from its place to the back of the order. */
  function Touch(st: LruState, spec: string): LruState
    requires spec in st.order
  {
    var i := IndexOf(st.order, spec);
    LruState(st.entries, st.order[..i] + st.order[i + 1..] + [spec])
  }

  lemma {:induction false} RemoveAppend(a: seq<string>, b: seq<string>, x: string)
    ensures Remove(a + b, x) == Remove(a, x) + Remove(b, x)
  {
    if a != [] {
      assert (a + b)[0] == a[0];
      assert (a + b)[1..] == a[1..] + b;
      RemoveAppend(a[1..], b, x);
      if a[0] != x {
        assert [a[0]] + (Remove(a[1..], x) + Remove(b, x)) == ([a[0]] + Remove(a[1..], x)) + Remove(b, x);
      }
    } else {
      assert a + b == b;
    }
  }

  /** Cutting out the one occurrence of `x` and appending it leaves the others in order. */
  lemma {:induction false} CutKeepsOthers(s: seq<string>, i: nat)
    requires i < |s|
    ensures Remove(s[..i] + s[i + 1..] + [s[i]], s[i]) == Remove(s, s[i])
  {
    var x, pre, post := s[i], s[..i], s[i + 1..];
    assert s == pre + [x] + post;
    assert Remove([x], x) == [] by {
      assert [x][1..] == [];
    }
    calc {
      Remove(s, x);
      == { RemoveAppend(pre + [x], post, x); }
      Remove(pre + [x], x) + Remove(post, x);
      == { RemoveAppend(pre, [x], x); }
      Remove(pre, x) + [] + Remove(post, x);
      == { RemoveAppend(pre, post, x); }
      Remove(pre + post, x);
      == { RemoveAppend(pre + post, [x], x); }
      Remove(pre + post + [x], x);
    }
  }

  /**
    A hit keeps the cache well formed and its contents unchanged, puts `spec`
    last, and keeps the relative order of every other spec.
  */
  lemma {:induction false} TouchKeepsOrder(st: LruState, spec: string)
    requires WellFormed(st) && spec in st.order
    ensures WellFormed(Touch(st, spec))
    ensures Touch(st, spec).entries == st.entries
    ensures |Touch(st, spec).order| == |st.order|
    ensures Touch(st, spec).order[|st.order| - 1] == spec
    ensures Remove(Touch(st, spec).order, spec) == Remove(st.order, spec)
  {
    var s := st.order;
    var i := IndexOf(s, spec);
    DistinctCut(s, i);
    DistinctSnoc(s[..i] + s[i + 1..], spec);
    CutKeepsOthers(s, i);
    assert s == s[..i] + [spec] + s[i + 1..];
    forall k ensures k in st.entries <==> k in Touch(st, spec).order {
      assert k in s <==> k in s[..i] || k == spec || k in s[i + 1..];
    }
  }

  /**
    A miss that parsed: when the cache is at capacity the least recently used
    spec is dropped first; then `spec` is added with its schedule, last.
  */
  function Insert(st: LruState, capacity: int, spec: string, sched: Schedule): LruState
    requires WellFormed(st) && capacity >= 1 && spec !in st.entries
  {
    SizeIsOrderLength(st);
    var kept := if |st.entries| >= capacity then LruState(st.entries - {st.order[0]}, st.order[1..]) else st;
    LruState(kept.entries[spec := sched], kept.order + [spec])
  }

  /** Dropping the oldest spec keeps the cache well formed and removes exactly that spec. */
  lemma EvictOldest(st: LruState)
    requires WellFormed(st) && st.order != []
    ensures var r := LruState(st.entries - {st.order[0]}, st.order[1..]);
      WellFormed(r) && st.order[0] !in r.entries && |r.entries| == |st.entries| - 1
  {
    DistinctTail(st.order);
    var r := LruState(st.entries - {st.order[0]}, st.order[1..]);
    assert st.order == [st.order[0]] + st.order[1..];
    SizeIsOrderLength(st);
    SizeIsOrderLength(r);
  }

  /**
    A miss keeps the cache well formed and within capacity, caches `spec`
    with its schedule as the most recent entry, and, at capacity, drops
    exactly the least recently used spec and keeps every other entry.
  */
  lemma InsertKeepsCapacity(st: LruState, capacity: int, spec: string, sched: Schedule)
    requires WellFormed(st) && capacity >= 1 && spec !in st.entries
    requires |st.entries| <= capacity
    ensures var r := Insert(st, capacity, spec, sched);
      && WellFormed(r)
      && |r.entries| <= capacity
      && spec in r.entries && r.entries[spec] == sched
      && r.order[|r.order| - 1] == spec
      && (|st.entries| < capacity ==> r.entries == st.entries[spec := sched] && r.order == st.order + [spec])
      && (|st.entries| >= capacity ==>
            && st.order[0] !in r.entries
            && (forall k :: k in st.entries && k != st.order[0] ==> k in r.entries && r.entries[k] == st.entries[k])
            && |r.entries| == |st.entries|)
  {
    SizeIsOrderLength(st);
    var kept := if |st.entries| >= capacity then LruState(st.entries - {st.order[0]}, st.order[1..]) else st;
    if |st.entries| >= capacity {
      EvictOldest(st);
    }
    DistinctSnoc(kept.order, spec);
    var r := Insert(st, capacity, spec, sched);
    assert r == LruState(kept.entries[spec := sched], kept.order + [spec]);
    SizeIsOrderLength(kept);
    SizeIsOrderLength(r);
  }

  /** A miss brings no entry into the cache other than `spec` itself. */
  lemma InsertAddsOnlySpec(st: LruState, capacity: int, spec: string, sched: Schedule)
    requires WellFormed(st) && capacity >= 1 && spec !in st.entries
    ensures var r := Insert(st, capacity, spec, sched);
      forall k :: k in r.entries && k != spec ==> k in st.entries && r.entries[k] == st.entries[k]
  {
    SizeIsOrderLength(st);
  }

  /**
    Inserting more distinct specs than the capacity into an empty cache, one
    after the other, leaves the first one evicted and the last one cached.
  */
  lemma LeastRecentlyUsedIsEvicted(a: string, b: string, sa: Schedule, sb: Schedule)
    requires a != b
    ensures var one := Insert(EmptyState, 1, a, sa);
      WellFormed(one) && b !in one.entries &&
      var two := Insert(one, 1, b, sb);
      a !in two.entries && two.entries == map[b := sb] && two.order == [b]
  {
    var one := Insert(EmptyState, 1, a, sa);
    InsertKeepsCapacity(EmptyState, 1, a, sa);
    assert one.order == [a];
    InsertKeepsCapacity(one, 1, b, sb);
  }

  // ---------------------------------------------------------------------------
  // parserCache

  class ParserCache {
    var cache: map<string, Schedule>
    var accessOrder: seq<string>
    const parserType: Parser
    /** The parser's collaborators, fixed for the life of the cache. */
    const ext: Externals

    function State(): LruState
      reads this
    {
      LruState(cache, accessOrder)
    }

    /** Every cached schedule is what parsing its spec afresh gives. */
    ghost predicate Transparent()
      reads this
    {
      forall k :: k in cache ==> ParseNoCache(parserType, ext, k) == Success(cache[k])
    }

    ghost predicate Valid()
      reads this
    {
      WellFormed(State()) && Transparent()
    }

    constructor(p: Parser, ext: Externals)
      ensures State() == EmptyState && parserType == p && this.ext == ext
      ensures Valid()
    {
      cache := map[];
      accessOrder := [];
      parserType := p;
      this.ext := ext;
    }

    /** updateAccessOrder: find `spec`, cut it out, append it. */
    method UpdateAccessOrder(spec: string)
      requires spec in accessOrder
      modifies this
      ensures State() == Touch(old(State()), spec)
    {
      var pos := 0;
      while accessOrder[pos] != spec
        invariant 0 <= pos < |accessOrder|
        invariant spec !in accessOrder[..pos]
        invariant spec in accessOrder[pos..]
        decreases |accessOrder| - pos
      {
        assert accessOrder[pos..] == [accessOrder[pos]] + accessOrder[pos + 1..];
        assert accessOrder[..pos + 1] == accessOrder[..pos] + [accessOrder[pos]];
        pos := pos + 1;
      }
      FirstIndex(accessOrder, spec, pos);
      accessOrder := accessOrder[..pos] + accessOrder[pos + 1..];
      accessOrder := accessOrder + [spec];
    }

    /** The miss path of parseWithCache once parsing succeeded: evict when full, then add. */
    method Add(spec: string, schedule: Schedule, capacity: int)
      requires Valid() && capacity >= 1 && spec !in cache && |cache| <= capacity
      requires ParseNoCache(parserType, ext, spec) == Success(schedule)
      modifies this
      ensures State() == Insert(old(State()), capacity, spec, schedule)
      ensures Valid() && |cache| <= capacity
    {
      ghost var st := State();
      InsertKeepsCapacity(st, capacity, spec, schedule);
      InsertAddsOnlySpec(st, capacity, spec, schedule);
      if |cache| >= capacity {
        var oldest := accessOrder[0];
        cache := cache - {oldest};
        accessOrder := accessOrder[1..];
      }
      cache := cache[spec := schedule];
      accessOrder := accessOrder + [spec];
      assert State() == Insert(st, capacity, spec, schedule);
      forall k | k in cache
        ensures ParseNoCache(parserType, ext, k) == Success(cache[k])
      {
        if k != spec {
          assert k in st.entries && cache[k] == st.entries[k];
        }
      }
    }

    /**
      The body of parseWithCache once the parser's cache is found: a hit moves
      `spec` to the back; a miss parses and, on success, adds the schedule.
      Either way the result is what a fresh parse gives.
    */
    method Lookup(spec: string, capacity: int) returns (r: Result<Schedule, ParseError>)
      requires Valid() && capacity >= 1 && |cache| <= capacity
      modifies this
      ensures Valid() && |cache| <= capacity
      ensures r == ParseNoCache(parserType, ext, spec)
      ensures var st := old(State());
        if spec in st.entries then
          && r == Success(st.entries[spec])
          && State() == Touch(st, spec)
        else
          && (r.Failure? ==> State() == st)
          && (r.Success? ==> State() == Insert(st, capacity, spec, r.value))
    {
      if spec in cache {
        var schedule := cache[spec];
        TouchKeepsOrder(State(), spec);
        UpdateAccessOrder(spec);
        return Success(schedule);
      }
      r := ParseNoCache(parserType, ext, spec);
      if r.Success? {
        Add(spec, r.value, capacity);
      }
    }
  }

  // ---------------------------------------------------------------------------
  // The table of caches, one per parser option set

  class CacheTable {
    var caches: map<set<ParseOption>, ParserCache>
    const maxCacheSize: int
    /** The parser's collaborators, shared by every cache. */
    const ext: Externals
    ghost var Repr: set<object>

    ghost predicate Valid()
      reads this, Repr
    {
      && maxCacheSize >= 1
      && (forall o :: o in caches ==> caches[o] in Repr)
      && (forall o :: o in caches ==> caches[o].parserType.options == o && caches[o].ext == ext)
      && (forall o :: o in caches ==> caches[o].Valid() && |caches[o].cache| <= maxCacheSize)
      && (forall o1, o2 :: o1 in caches && o2 in caches && o1 != o2 ==> caches[o1] != caches[o2])
    }

    /** The cache state for an option set; empty while no cache exists for it. */
    ghost function StateOf(o: set<ParseOption>): LruState
      reads this, Repr
    {
      if o in caches && caches[o] in Repr then caches[o].State() else EmptyState
    }

    constructor(capacity: int, ext: Externals)
      requires capacity >= 1
      ensures Valid() && caches == map[] && maxCacheSize == capacity && this.ext == ext
    {
      caches := map[];
      maxCacheSize := capacity;
      this.ext := ext;
      Repr := {};
    }

    /**
      getCacheForParser: the existing cache for the parser's options, or a
      fresh empty one registered under them.
    */
    method GetCacheForParser(p: Parser) returns (c: ParserCache)
      requires Valid()
      modifies this
      ensures Valid()
      ensures p.options in caches && c == caches[p.options] && c.parserType == p
      ensures p.options in old(caches) ==> c == old(caches)[p.options] && caches == old(caches) && Repr == old(Repr)
      ensures p.options !in old(caches) ==>
        && fresh(c) && c.State() == EmptyState
        && caches == old(caches)[p.options := c] && Repr == old(Repr) + {c}
      ensures forall o :: StateOf(o) == old(StateOf(o))
    {
      if p.options in caches {
        c := caches[p.options];
      } else {
        c := new ParserCache(p, ext);
        caches := caches[p.options := c];
        Repr := Repr + {c};
        forall o | o in old(caches) ensures caches[o] == old(caches[o]) && caches[o] != c {
        }
        forall o ensures StateOf(o) == old(StateOf(o)) {
          if o != p.options && o in caches {
            assert caches[o].State() == old(caches[o].State());
          }
        }
      }
    }

    /**
      parseWithCache: a hit returns the stored schedule and moves the spec to
      the back; a miss parses, and on success inserts, evicting the least
      recently used spec when the cache is full. No other cache changes, and
      the result is always what parsing afresh gives.
    */
    method ParseWithCache(p: Parser, spec: string) returns (r: Result<Schedule, ParseError>)
      requires Valid()
      modifies this, Repr
      ensures Valid()
      ensures r == ParseNoCache(p, ext, spec)
      ensures var st := old(StateOf(p.options));
        if spec in st.entries then
          && r == Success(st.entries[spec])
          && StateOf(p.options) == Touch(st, spec)
        else
          && (r.Failure? ==> StateOf(p.options) == st)
          && (r.Success? ==> StateOf(p.options) == Insert(st, maxCacheSize, spec, r.value))
      ensures forall o :: o != p.options ==> StateOf(o) == old(StateOf(o))
    {
      var c := GetCacheForParser(p);
      label found:
      r := c.Lookup(spec, maxCacheSize);
      forall o | o in caches && o != p.options
        ensures caches[o] != c && caches[o].State() == old@found(caches[o].State()) && caches[o].Valid()
      {
      }
    }
  }
}
