/** A model of the keep-alive registry of streamMonitor.go: a table from camera
    identifier to liveness status, refreshed by AddOrUpdateLiveStreamStatus and
    pruned by the periodic sweep in monitorCameraStatus, which tears down the
    stream of every entry whose expiry has passed.

    Wall-clock time is an integer number of seconds supplied by the caller. */
module StreamMonitor {

  /** The liveness window: one minute. */
  const TTL: int := 60

  /** Return codes of AddOrUpdateLiveStreamStatus. */
  const ADD: string := "add"
  const UPDATED: string := "updated"

  /** One entry of the camera table. */
  datatype CameraStatus = CameraStatus(active: bool, expiry: int)

  type Table = map<string, CameraStatus>

  /** `time.Now().After(s.Expiry)`: strictly after, so an entry whose expiry
      equals `now` is still live. */
  predicate IsExpired(s: CameraStatus, now: int)
  {
    now > s.expiry
  }

  /** Every entry of the table is marked active. */
  ghost predicate AllActive(m: Table)
  {
    forall k :: k in m ==> m[k].active
  }

  // ---------------------------------------------------------------------------
  // Specification of the touch operation
  // ---------------------------------------------------------------------------

  /** The table after touching `camID` at time `now`: a new entry is active,
      an existing one keeps its flag, and either way the expiry moves to
      `now + TTL`; no other entry changes. */
  function Touched(m: Table, camID: string, now: int): (r: Table)
    ensures r.Keys == m.Keys + {camID}
    ensures r[camID].expiry == now + TTL
    ensures camID !in m ==> r[camID].active
    ensures camID in m ==> r[camID].active == m[camID].active
    ensures forall k :: k in m && k != camID ==> r[k] == m[k]
  {
    var status := if camID in m then m[camID].(expiry := now + TTL)
                  else CameraStatus(true, now + TTL);
    m[camID := status]
  }

  // ---------------------------------------------------------------------------
  // Specification of one sweep pass
  // ---------------------------------------------------------------------------

  /** The table after one sweep at time `now`: exactly the entries that have
      not expired survive, each unchanged. */
  function Swept(m: Table, now: int): (r: Table)
    ensures r.Keys <= m.Keys
    ensures forall k :: k in m ==> (k in r <==> m[k].expiry >= now)
    ensures forall k :: k in r ==> r[k] == m[k]
  {
    map k | k in m && !IsExpired(m[k], now) :: m[k]
  }

  /** The identifiers a sweep at time `now` tears down: the keys it removes. */
  function Expired(m: Table, now: int): set<string>
  {
    set k | k in m && IsExpired(m[k], now)
  }

  /** The table partway through a sweep at time `now`: the keys in `todo`
      have not been visited yet, the others have been kept or deleted. */
  ghost function PartlySwept(m: Table, todo: set<string>, now: int): Table
  {
    map k | k in m && (k in todo || !IsExpired(m[k], now)) :: m[k]
  }

  /** Before the first visit nothing is deleted. */
  lemma PartlySweptStart(m: Table, now: int)
    ensures PartlySwept(m, m.Keys, now) == m
  {
  }

  /** Visiting one more key deletes it if it has expired and keeps it
      otherwise. */
  lemma PartlySweptStep(m: Table, todo: set<string>, camID: string, now: int)
    requires camID in todo && todo <= m.Keys
    ensures camID in PartlySwept(m, todo, now)
    ensures PartlySwept(m, todo, now)[camID] == m[camID]
    ensures PartlySwept(m, todo - {camID}, now)
         == if IsExpired(m[camID], now) then PartlySwept(m, todo, now) - {camID}
            else PartlySwept(m, todo, now)
  {
  }

  /** After the last visit the table is the swept one. */
  lemma PartlySweptEnd(m: Table, now: int)
    ensures PartlySwept(m, {}, now) == Swept(m, now)
  {
  }

  /** The elements of a sequence, as a set. */
  function Elements<T>(s: seq<T>): set<T>
  {
    set x | x in s
  }

  /** No element occurs twice. */
  predicate NoDuplicates<T(==)>(s: seq<T>)
  {
    forall i, j :: 0 <= i < j < |s| ==> s[i] != s[j]
  }

  // ---------------------------------------------------------------------------
  // Properties
  // ---------------------------------------------------------------------------

  /** Touching the same camera twice at the same time gives the same table as
      touching it once, and the second touch finds the key present. */
  lemma TouchIdempotent(m: Table, camID: string, now: int)
    ensures camID in Touched(m, camID, now)
    ensures Touched(Touched(m, camID, now), camID, now) == Touched(m, camID, now)
  {
  }

  /** A touch never clears an active flag, so a table whose entries are all
      active stays so. */
  lemma TouchKeepsAllActive(m: Table, camID: string, now: int)
    requires AllActive(m)
    ensures AllActive(Touched(m, camID, now))
  {
  }

  /** A sweep removes entries only, so a table whose entries are all active
      stays so. */
  lemma SweepKeepsAllActive(m: Table, now: int)
    requires AllActive(m)
    ensures AllActive(Swept(m, now))
  {
  }

  /** After a sweep nothing expired is left, and a second sweep at the same
      time removes nothing and tears nothing down. */
  lemma SweepIdempotent(m: Table, now: int)
    ensures Expired(Swept(m, now), now) == {}
    ensures Swept(Swept(m, now), now) == Swept(m, now)
  {
  }

  /** A camera touched at time `t` survives a later sweep at `now` exactly
      when `now` is at most `t + TTL` (the boundary instant included). */
  lemma TouchThenSweep(m: Table, camID: string, t: int, now: int)
    ensures camID in Swept(Touched(m, camID, t), now) <==> now <= t + TTL
  {
  }

  /** The keys a sweep tears down are exactly the keys it removes. */
  lemma ExpiredRemoved(m: Table, now: int)
    ensures Expired(m, now) == m.Keys - Swept(m, now).Keys
  {
  }

  /** The removed and the surviving entries partition the table. */
  lemma {:induction false} SweepCount(m: Table, now: int)
    ensures |Swept(m, now)| + |Expired(m, now)| == |m|
  {
    var live, dead := Swept(m, now).Keys, Expired(m, now);
    ExpiredRemoved(m, now);
    assert live !! dead;
    assert m.Keys == live + dead;
    assert |m.Keys| == |live| + |dead|;
  }

  /** A sequence without repetitions has as many distinct elements as it has
      positions; it turns the teardown log into a count of torn-down keys. */
  lemma {:induction false} DistinctCount<T>(s: seq<T>)
    requires NoDuplicates(s)
    ensures |Elements(s)| == |s|
  {
    if s != [] {
      var init := s[..|s| - 1];
      var last := s[|s| - 1];
      assert NoDuplicates(init);
      DistinctCount(init);
      assert Elements(s) == Elements(init) + {last} by {
        assert s == init + [last];
      }
      assert last !in Elements(init);
    }
  }

  /** A teardown log that names each expired key exactly once is as long as
      the number of entries the sweep removes. */
  lemma TeardownCount(m: Table, log: seq<string>, now: int)
    requires NoDuplicates(log) && Elements(log) == Expired(m, now)
    ensures |log| == |m| - |Swept(m, now)|
  {
    DistinctCount(log);
    SweepCount(m, now);
  }

  /** Appending a new element keeps a sequence free of repetitions. */
  lemma AppendFresh<T>(s: seq<T>, x: T)
    requires NoDuplicates(s) && x !in Elements(s)
    ensures NoDuplicates(s + [x])
    ensures Elements(s + [x]) == Elements(s) + {x}
  {
  }

  // ---------------------------------------------------------------------------
  // The registry: the global camera table and the teardown collaborator
  // ---------------------------------------------------------------------------

  class Registry {
    /** The camera table, `cameraMap`. */
    var cameras: Table
    /** Every `StreamDelete` call made so far, in order. */
    var teardowns: seq<string>

    /** An empty table and no teardown yet. */
    constructor ()
      ensures cameras == map[] && teardowns == []
    {
      cameras := map[];
      teardowns := [];
    }

    /** The stream-teardown collaborator: its effect is recorded, nothing more. */
    method StreamDelete(camID: string)
      modifies this`teardowns
      ensures teardowns == old(teardowns) + [camID]
    {
      teardowns := teardowns + [camID];
    }

    /** The keep-alive touch. Returns "add" for a camera not yet in the table
        (now present, active, expiring at `now + TTL`) and "updated" for a
        known one (expiry moved to `now + TTL`, flag kept); nothing else in
        the table changes. */
    method AddOrUpdateLiveStreamStatus(camID: string, now: int) returns (r: string)
      modifies this`cameras
      ensures r == ADD || r == UPDATED
      ensures r == ADD <==> camID !in old(cameras)
      ensures cameras == Touched(old(cameras), camID, now)
    {
      r := UPDATED;
      var status: CameraStatus;
      if camID !in cameras {
        status := CameraStatus(true, now + TTL);
        r := ADD;
      } else {
        status := cameras[camID];
        status := status.(expiry := now + TTL);
      }
      cameras := cameras[camID := status];
    }

    /** One tick of the monitor: every entry whose expiry is strictly before
        `now` is torn down once and deleted; all other entries stay as they
        were. The keys are visited in an unspecified order. */
    method Sweep(now: int)
      modifies this
      ensures cameras == Swept(old(cameras), now)
      ensures |old(teardowns)| <= |teardowns|
      ensures teardowns[..|old(teardowns)|] == old(teardowns)
      ensures NoDuplicates(teardowns[|old(teardowns)|..])
      ensures Elements(teardowns[|old(teardowns)|..]) == Expired(old(cameras), now)
      ensures |teardowns| - |old(teardowns)| == |old(cameras)| - |cameras|
    {
      ghost var m0, log0 := cameras, teardowns;
      ghost var done: seq<string> := [];
      var todo := cameras.Keys;
      PartlySweptStart(m0, now);
      while todo != {}
        invariant todo <= m0.Keys
        invariant cameras == PartlySwept(m0, todo, now)
        invariant teardowns == log0 + done
        invariant NoDuplicates(done)
        invariant Elements(done) == Expired(m0, now) - todo
        decreases todo
      {
        var camID :| camID in todo;
        PartlySweptStep(m0, todo, camID, now);
        var status := cameras[camID];
        if IsExpired(status, now) {
          AppendFresh(done, camID);
          StreamDelete(camID);
          done := done + [camID];
          cameras := cameras - {camID};
        }
        todo := todo - {camID};
      }
      PartlySweptEnd(m0, now);
      assert teardowns[|log0|..] == done;
      TeardownCount(m0, done, now);
    }
  }
}
