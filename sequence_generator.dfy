/** MongoSequenceGenerator: sequences kept as documents
    {name, initialValue, increment, value} in a collection, handed out
    one value at a time or in pools of reserved values. The collection is
    a map from sequence name to its document; Java's 64-bit arithmetic is
    modelled with unbounded integers. */
module SequenceGenerator {
  import opened Values

  /** One sequence document. */
  datatype SeqDoc = SeqDoc(init: int, inc: int, value: int)

  /** The three counters of a SequenceInfo, as a value. */
  datatype Pool = Pool(size: int, next: int, inc: int)

  /** The outcome of one getNextSequenceValue call: the pool afterwards, the
      collection afterwards and the value returned. */
  datatype Draw = Draw(pool: Pool, db: map<string, SeqDoc>, ret: int)

  /** An increment of 0 is stored as 1. */
  function StoredInc(inc: int): (r: int)
    ensures r != 0
    ensures inc != 0 ==> r == inc
    ensures inc >= 0 ==> r > 0
  {
    if inc == 0 then 1 else inc
  }

  /** The collection after the insertion attempt: a missing sequence is
      created with value init; an existing one is left alone. */
  function Created(db: map<string, SeqDoc>, name: string, init: int, inc: int): map<string, SeqDoc>
  {
    if name in db then db else db[name := SeqDoc(init, StoredInc(inc), init)]
  }

  /** getNextSequenceValue(name, init, inc, poolSize) given the pool of the
      calling process: a non-empty pool serves the call; otherwise the
      sequence is read (created if missing) and its value advanced by the
      stored increment, times poolSize when poolSize > 1, in which case the
      pool keeps the poolSize - 1 values after the returned one. */
  function Next(p: Pool, db: map<string, SeqDoc>, name: string, init: int, inc: int, poolSize: int): (s: Draw)
    ensures p.size > 0 ==> s == Draw(Pool(p.size - 1, p.next + p.inc, p.inc), db, p.next)
    ensures p.size <= 0 ==> name in s.db && s.ret == Created(db, name, init, inc)[name].value
    ensures forall n :: n != name ==> (n in s.db <==> n in db)
    ensures forall n :: n != name && n in db ==> s.db[n] == db[n]
  {
    if p.size > 0 then Draw(Pool(p.size - 1, p.next + p.inc, p.inc), db, p.next)
    else
      var d := Created(db, name, init, inc);
      var doc := d[name];
      var step := if poolSize > 1 then doc.inc * poolSize else doc.inc;
      var pool := if poolSize > 1 then Pool(poolSize - 1, doc.value + doc.inc, doc.inc) else p;
      Draw(pool, d[name := doc.(value := doc.value + step)], doc.value)
  }

  /** SequenceInfo: the pool of values reserved by this process. */
  class SequenceInfo {
    var poolSize: int
    var nextIdInPool: int
    var inc: int

    constructor ()
      ensures poolSize == 0 && nextIdInPool == 0 && inc == 0
    {
      poolSize := 0;
      nextIdInPool := 0;
      inc := 0;
    }

    function State(): Pool
      reads this
    {
      Pool(poolSize, nextIdInPool, inc)
    }

    /** nextId(): the next pooled value, None (null) when the pool is
        empty. */
    method NextId() returns (r: Option<int>)
      modifies this
      ensures old(poolSize) > 0 ==> (r == Some(old(nextIdInPool)) &&
        poolSize == old(poolSize) - 1 && nextIdInPool == old(nextIdInPool) + old(inc) && inc == old(inc))
      ensures old(poolSize) <= 0 ==> r == None && unchanged(this)
    {
      if poolSize > 0 {
        poolSize := poolSize - 1;
        var ret := nextIdInPool;
        nextIdInPool := nextIdInPool + inc;
        r := Some(ret);
      } else {
        r := None;
      }
    }
  }

  /** The sequences collection. */
  class SequenceStore {
    var docs: map<string, SeqDoc>

    constructor (docs: map<string, SeqDoc>)
      ensures this.docs == docs
    {
      this.docs := docs;
    }
  }

  class MongoSequenceGenerator {
    const coll: SequenceStore
    /** The pools of this process, one per sequence. */
    var sequenceInfo: map<string, SequenceInfo>

    constructor (coll: SequenceStore)
      ensures this.coll == coll && sequenceInfo == map[]
    {
      this.coll := coll;
      sequenceInfo := map[];
    }

    /** getNextSequenceValue: finds or creates the pool for name, then
        behaves as Next on that pool and the collection. */
    method GetNextSequenceValue(name: string, init: int, inc: int, poolSize: int) returns (ret: int)
      modifies this, coll, (if name in sequenceInfo then {sequenceInfo[name]} else {})
      ensures name in sequenceInfo
      ensures name in old(sequenceInfo) ==> sequenceInfo == old(sequenceInfo)
      ensures name !in old(sequenceInfo) ==>
        fresh(sequenceInfo[name]) && sequenceInfo == old(sequenceInfo)[name := sequenceInfo[name]]
      ensures Draw(sequenceInfo[name].State(), coll.docs, ret) ==
        Next(if name in old(sequenceInfo) then old(sequenceInfo[name].State()) else Pool(0, 0, 0),
             old(coll.docs), name, init, inc, poolSize)
    {
      var si: SequenceInfo;
      if name in sequenceInfo {
        si := sequenceInfo[name];
      } else {
        si := new SequenceInfo();
        sequenceInfo := sequenceInfo[name := si];
      }
      var next := si.NextId();
      if next.Some? {
        ret := next.value;
      } else {
        ret := Refill(si, name, init, inc, poolSize);
      }
    }

    /** The part of getNextSequenceValue after the pool came back empty:
        read or create the sequence, advance its value, and refill the pool
        when poolSize > 1. */
    method Refill(si: SequenceInfo, name: string, init: int, inc: int, poolSize: int) returns (ret: int)
      requires si.poolSize <= 0
      modifies si, coll
      ensures Draw(si.State(), coll.docs, ret) == Next(old(si.State()), old(coll.docs), name, init, inc, poolSize)
    {
      ghost var db0 := coll.docs;
      if name !in coll.docs {
        var stored := if inc == 0 then 1 else inc;
        coll.docs := coll.docs[name := SeqDoc(init, stored, init)];
      }
      assert coll.docs == Created(db0, name, init, inc);
      var doc := coll.docs[name];
      var increment := doc.inc;
      if poolSize > 1 {
        si.inc := increment;
        increment := increment * poolSize;
      }
      ret := doc.value;
      coll.docs := coll.docs[name := doc.(value := doc.value + increment)];
      if poolSize > 1 {
        si.poolSize := poolSize - 1;
        si.nextIdInPool := ret + si.inc;
      }
    }
  }

  /** The first call on a sequence that does not exist returns init, and
      the stored value moves on by one increment, or by poolSize increments
      when the rest of them go into the pool. */
  lemma FirstCallReturnsInit(p: Pool, db: map<string, SeqDoc>, name: string, init: int, inc: int, poolSize: int)
    requires name !in db && p.size <= 0
    ensures var s := Next(p, db, name, init, inc, poolSize);
      s.ret == init &&
      s.db[name] == SeqDoc(init, StoredInc(inc), init + StoredInc(inc) * (if poolSize > 1 then poolSize else 1)) &&
      (poolSize > 1 ==> s.pool == Pool(poolSize - 1, init + StoredInc(inc), StoredInc(inc)))
  {
  }

  /** For an existing sequence the init and inc arguments are ignored. */
  lemma ExistingIgnoresArguments(p: Pool, db: map<string, SeqDoc>, name: string, init1: int, inc1: int, init2: int, inc2: int, poolSize: int)
    requires name in db
    ensures Next(p, db, name, init1, inc1, poolSize) == Next(p, db, name, init2, inc2, poolSize)
  {
  }

  /** A pool size of 0 behaves exactly like a pool size of 1. */
  lemma PoolSizeZeroIsOne(p: Pool, db: map<string, SeqDoc>, name: string, init: int, inc: int)
    ensures Next(p, db, name, init, inc, 0) == Next(p, db, name, init, inc, 1)
  {
  }

  /** The pool of one process agrees with the collection: the values it
      still holds are exactly those just below the stored value. */
  predicate Consistent(p: Pool, db: map<string, SeqDoc>, name: string)
  {
    name in db && (p.size > 0 ==> p.inc == db[name].inc && p.next + p.size * p.inc == db[name].value)
  }

  /** The value the next call will return. */
  function Upcoming(p: Pool, db: map<string, SeqDoc>, name: string): int
    requires name in db
  {
    if p.size > 0 then p.next else db[name].value
  }

  /** Each call returns the upcoming value and moves it on by exactly the
      stored increment, whatever the pool size. */
  lemma NextAdvancesByInc(p: Pool, db: map<string, SeqDoc>, name: string, init: int, inc: int, poolSize: int)
    requires Consistent(p, db, name)
    ensures var s := Next(p, db, name, init, inc, poolSize);
      s.ret == Upcoming(p, db, name) && Consistent(s.pool, s.db, name) &&
      s.db[name].inc == db[name].inc &&
      Upcoming(s.pool, s.db, name) == Upcoming(p, db, name) + db[name].inc
  {
    var s := Next(p, db, name, init, inc, poolSize);
    var d := db[name].inc;
    if p.size > 0 {
      assert (p.size - 1) * d == p.size * d - d;
    } else if poolSize > 1 {
      assert (poolSize - 1) * d == poolSize * d - d;
    }
  }

  /** A run of calls by one process, with the pool size of each call. */
  function Run(p: Pool, db: map<string, SeqDoc>, name: string, init: int, inc: int, sizes: seq<int>): (r: seq<int>)
    ensures |r| == |sizes|
    decreases |sizes|
  {
    if sizes == [] then []
    else
      var s := Next(p, db, name, init, inc, sizes[0]);
      [s.ret] + Run(s.pool, s.db, name, init, inc, sizes[1..])
  }

  /** A consistent process counts up from the upcoming value in steps of
      the stored increment. */
  lemma {:induction false} RunCountsUp(p: Pool, db: map<string, SeqDoc>, name: string, init: int, inc: int, sizes: seq<int>)
    requires Consistent(p, db, name)
    ensures var r := Run(p, db, name, init, inc, sizes);
      forall j :: 0 <= j < |r| ==> r[j] == Upcoming(p, db, name) + j * db[name].inc
    decreases |sizes|
  {
    if sizes != [] {
      var s := Next(p, db, name, init, inc, sizes[0]);
      NextAdvancesByInc(p, db, name, init, inc, sizes[0]);
      RunCountsUp(s.pool, s.db, name, init, inc, sizes[1..]);
      var r := Run(p, db, name, init, inc, sizes);
      var rest := Run(s.pool, s.db, name, init, inc, sizes[1..]);
      var u := Upcoming(p, db, name);
      var d := db[name].inc;
      assert r == [s.ret] + rest;
      assert forall i :: 0 <= i < |Run(s.pool, s.db, name, init, inc, sizes[1..])| ==>
        Run(s.pool, s.db, name, init, inc, sizes[1..])[i] == Upcoming(s.pool, s.db, name) + i * s.db[name].inc;
      forall j | 0 < j < |r|
        ensures r[j] == u + j * d
      {
        assert r[j] == rest[j - 1];
        assert rest[j - 1] == u + d + (j - 1) * d;
        MulStep(j, d);
      }
    }
  }

  lemma MulStep(j: int, d: int)
    ensures d + (j - 1) * d == j * d
  {
  }

  /** One process using a new sequence gets init, init+inc, init+2*inc, ...
      (inc 0 counting as 1), whatever pool sizes it asks for. */
  lemma FreshRunIsArithmetic(p: Pool, db: map<string, SeqDoc>, name: string, init: int, inc: int, sizes: seq<int>)
    requires name !in db && p.size <= 0
    ensures var r := Run(p, db, name, init, inc, sizes);
      forall j :: 0 <= j < |r| ==> r[j] == init + j * StoredInc(inc)
  {
    var c := Created(db, name, init, inc);
    assert Consistent(p, c, name) && Upcoming(p, c, name) == init;
    if sizes != [] {
      assert Next(p, db, name, init, inc, sizes[0]) == Next(p, c, name, init, inc, sizes[0]);
      assert Run(p, db, name, init, inc, sizes) == Run(p, c, name, init, inc, sizes);
    }
    RunCountsUp(p, c, name, init, inc, sizes);
  }

  /** The position of x along a sequence that moves by inc: x itself for a
      positive increment, -x for a negative one, so that later values always
      have larger positions. */
  function Pos(x: int, inc: int): int
  {
    if inc > 0 then x else -x
  }

  /** Moving k steps of inc moves the position on by k times the size of
      the step. */
  lemma PosShift(x: int, k: int, inc: int)
    requires inc != 0
    ensures Pos(x + k * inc, inc) == Pos(x, inc) + k * (if inc > 0 then inc else -inc)
  {
    if inc < 0 {
      assert k * (-inc) == -(k * inc);
    }
  }

  /** The position just past the last value a pool holds. */
  function End(p: Pool): int
  {
    p.next + p.size * p.inc
  }

  /** The values a pool still holds are next, next + inc, ..., all of them at
      positions in [Pos(next), Pos(End)); x lies outside that range. */
  predicate Outside(x: int, p: Pool)
  {
    p.size > 0 ==> Pos(x, p.inc) < Pos(p.next, p.inc) || Pos(x, p.inc) >= Pos(End(p), p.inc)
  }

  /** A pool moves by the stored increment and ends at or before the stored
      value. */
  predicate Fits(p: Pool, d: SeqDoc)
  {
    p.size > 0 ==> p.inc == d.inc && Pos(End(p), d.inc) <= Pos(d.value, d.inc)
  }

  /** Two pools on the same sequence hold ranges that do not overlap. */
  predicate Apart(a: Pool, b: Pool)
  {
    a.size > 0 && b.size > 0 ==>
      Pos(End(a), a.inc) <= Pos(b.next, a.inc) || Pos(End(b), a.inc) <= Pos(a.next, a.inc)
  }

  /** Two processes sharing one sequence, whose stored increment may be
      positive or negative but is not 0: their pools are disjoint ranges
      before the stored value, and every value already handed out lies
      before the stored value and outside both pools. Before the sequence
      exists nothing is pooled or handed out. */
  predicate Disjoint(a: Pool, b: Pool, db: map<string, SeqDoc>, name: string, issued: set<int>)
  {
    if name in db then
      var d := db[name];
      d.inc != 0 && Fits(a, d) && Fits(b, d) && Apart(a, b) &&
      forall x :: x in issued ==> Pos(x, d.inc) < Pos(d.value, d.inc) && Outside(x, a) && Outside(x, b)
    else a.size <= 0 && b.size <= 0 && issued == {}
  }

  /** The two processes play symmetric roles. */
  lemma DisjointSymmetric(a: Pool, b: Pool, db: map<string, SeqDoc>, name: string, issued: set<int>)
    requires Disjoint(a, b, db, name, issued)
    ensures Disjoint(b, a, db, name, issued)
  {
  }

  /** A call by either process returns a value not handed out before and
      keeps the two pools disjoint, for any increment argument. */
  lemma DrawIsNew(a: Pool, b: Pool, db: map<string, SeqDoc>, name: string, init: int, inc: int, poolSize: int, issued: set<int>)
    requires Disjoint(a, b, db, name, issued)
    ensures var s := Next(a, db, name, init, inc, poolSize);
      s.ret !in issued && Disjoint(s.pool, b, s.db, name, issued + {s.ret})
  {
    if a.size > 0 {
      DrawFromPool(a, b, db, name, init, inc, poolSize, issued);
    } else {
      DrawFromStore(a, b, db, name, init, inc, poolSize, issued);
    }
  }

  /** A call served from the pool: the pool's first value is new, and the
      rest of the pool keeps its end. */
  lemma DrawFromPool(a: Pool, b: Pool, db: map<string, SeqDoc>, name: string, init: int, inc: int, poolSize: int, issued: set<int>)
    requires Disjoint(a, b, db, name, issued) && a.size > 0
    ensures var s := Next(a, db, name, init, inc, poolSize);
      s.ret !in issued && Disjoint(s.pool, b, s.db, name, issued + {s.ret})
  {
    var s := Next(a, db, name, init, inc, poolSize);
    var d := db[name];
    var m := if d.inc > 0 then d.inc else -d.inc;
    PosShift(a.next, a.size, d.inc);
    PosShift(a.next, 1, d.inc);
    assert s.pool == Pool(a.size - 1, a.next + a.inc, a.inc) && s.db == db && s.ret == a.next;
    assert (a.size - 1) * d.inc + d.inc == a.size * d.inc;
    assert End(s.pool) == End(a);
    assert a.size * m >= m;
    var pn := Pos(a.next, d.inc);
    assert Pos(End(a), d.inc) >= pn + m;
    assert Pos(s.pool.next, d.inc) == pn + m;
    forall x | x in issued + {s.ret}
      ensures Pos(x, d.inc) < Pos(d.value, d.inc) && Outside(x, s.pool) && Outside(x, b)
    {
    }
  }

  /** A call that reads the stored value, creating the sequence first when
      it is missing. */
  lemma DrawFromStore(a: Pool, b: Pool, db: map<string, SeqDoc>, name: string, init: int, inc: int, poolSize: int, issued: set<int>)
    requires Disjoint(a, b, db, name, issued) && a.size <= 0
    ensures var s := Next(a, db, name, init, inc, poolSize);
      s.ret !in issued && Disjoint(s.pool, b, s.db, name, issued + {s.ret})
  {
    var c := Created(db, name, init, inc);
    assert Disjoint(a, b, c, name, issued);
    assert Next(a, db, name, init, inc, poolSize) == Next(a, c, name, init, inc, poolSize);
    DrawFromExisting(a, b, c, name, init, inc, poolSize, issued);
  }

  /** On an existing sequence, the stored value is new, and the stored value
      moves on past the refilled pool. */
  lemma DrawFromExisting(a: Pool, b: Pool, db: map<string, SeqDoc>, name: string, init: int, inc: int, poolSize: int, issued: set<int>)
    requires Disjoint(a, b, db, name, issued) && a.size <= 0 && name in db
    ensures var s := Next(a, db, name, init, inc, poolSize);
      s.ret !in issued && Disjoint(s.pool, b, s.db, name, issued + {s.ret})
  {
    var s := Next(a, db, name, init, inc, poolSize);
    var d := db[name];
    var m := if d.inc > 0 then d.inc else -d.inc;
    var k := if poolSize > 1 then poolSize else 1;
    var d2 := d.(value := d.value + k * d.inc);
    PosShift(d.value, k, d.inc);
    PosShift(d.value, 1, d.inc);
    assert s.ret == d.value && s.db == db[name := d2];
    assert k * m >= m;
    if poolSize > 1 {
      assert s.pool == Pool(poolSize - 1, d.value + d.inc, d.inc);
      assert (poolSize - 1) * d.inc + d.inc == poolSize * d.inc;
    } else {
      assert s.pool == a;
    }
    StoreStep(s.pool, b, d, d2, issued);
  }

  /** The invariant after the stored value d.value is handed out and the
      stored value moves on to d2.value, the end of the refilled pool p. */
  lemma StoreStep(p: Pool, b: Pool, d: SeqDoc, d2: SeqDoc, issued: set<int>)
    requires d.inc != 0 && d2.inc == d.inc
    requires Pos(d2.value, d.inc) > Pos(d.value, d.inc)
    requires p.size > 0 ==> p.inc == d.inc && End(p) == d2.value && Pos(p.next, d.inc) > Pos(d.value, d.inc)
    requires Fits(b, d)
    requires forall x :: x in issued ==> Pos(x, d.inc) < Pos(d.value, d.inc) && Outside(x, b)
    ensures d.value !in issued
    ensures Fits(p, d2) && Fits(b, d2) && Apart(p, b)
    ensures forall x :: x in issued + {d.value} ==>
      Pos(x, d2.inc) < Pos(d2.value, d2.inc) && Outside(x, p) && Outside(x, b)
  {
  }

  /** Which process makes a call, and with what pool size. */
  datatype Call = Call(first: bool, poolSize: int)

  /** Calls by two processes, interleaved in the order given, against one
      shared collection. */
  function Interleave(a: Pool, b: Pool, db: map<string, SeqDoc>, name: string, init: int, inc: int, calls: seq<Call>): (r: seq<int>)
    ensures |r| == |calls|
    decreases |calls|
  {
    if calls == [] then []
    else if calls[0].first then
      var s := Next(a, db, name, init, inc, calls[0].poolSize);
      [s.ret] + Interleave(s.pool, b, s.db, name, init, inc, calls[1..])
    else
      var s := Next(b, db, name, init, inc, calls[0].poolSize);
      [s.ret] + Interleave(a, s.pool, s.db, name, init, inc, calls[1..])
  }

  /** However two processes interleave, no value is handed out twice. */
  lemma {:induction false} InterleaveNeverRepeats(a: Pool, b: Pool, db: map<string, SeqDoc>, name: string, init: int, inc: int, calls: seq<Call>, issued: set<int>)
    requires Disjoint(a, b, db, name, issued)
    ensures forall i :: 0 <= i < |calls| ==> Interleave(a, b, db, name, init, inc, calls)[i] !in issued
    ensures forall i, j :: 0 <= i < j < |calls| ==>
      Interleave(a, b, db, name, init, inc, calls)[i] != Interleave(a, b, db, name, init, inc, calls)[j]
    decreases |calls|
  {
    if calls != [] {
      var r := Interleave(a, b, db, name, init, inc, calls);
      var rest: seq<int>;
      var ret: int;
      if calls[0].first {
        var s := Next(a, db, name, init, inc, calls[0].poolSize);
        DrawIsNew(a, b, db, name, init, inc, calls[0].poolSize, issued);
        InterleaveNeverRepeats(s.pool, b, s.db, name, init, inc, calls[1..], issued + {s.ret});
        rest := Interleave(s.pool, b, s.db, name, init, inc, calls[1..]);
        ret := s.ret;
        assert forall i :: 0 <= i < |rest| ==> rest[i] !in issued + {ret};
      } else {
        var s := Next(b, db, name, init, inc, calls[0].poolSize);
        DisjointSymmetric(a, b, db, name, issued);
        DrawIsNew(b, a, db, name, init, inc, calls[0].poolSize, issued);
        DisjointSymmetric(s.pool, a, s.db, name, issued + {s.ret});
        InterleaveNeverRepeats(a, s.pool, s.db, name, init, inc, calls[1..], issued + {s.ret});
        rest := Interleave(a, s.pool, s.db, name, init, inc, calls[1..]);
        ret := s.ret;
        assert forall i :: 0 <= i < |rest| ==> rest[i] !in issued + {ret};
      }
      assert r == [ret] + rest;
      forall i, j | 0 <= i < j < |r|
        ensures r[i] != r[j]
      {
        assert r[j] == rest[j - 1];
        if i > 0 {
          assert r[i] == rest[i - 1];
        }
      }
    }
  }

  /** Two processes that start with empty pools never get the same value,
      on a new sequence or on a stored one whose increment is not 0,
      negative increments included. */
  lemma FreshProcessesNeverRepeat(db: map<string, SeqDoc>, name: string, init: int, inc: int, calls: seq<Call>)
    requires name in db ==> db[name].inc != 0
    ensures var r := Interleave(Pool(0, 0, 0), Pool(0, 0, 0), db, name, init, inc, calls);
      forall i, j :: 0 <= i < j < |r| ==> r[i] != r[j]
  {
    InterleaveNeverRepeats(Pool(0, 0, 0), Pool(0, 0, 0), db, name, init, inc, calls, {});
  }
}
