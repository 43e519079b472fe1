/** Adding indices to the factory from many threads, as a system of interleaved steps. */
module IndexFactory {
  // A call reserves an id and a byte range under one lock, grows the store under a second one, writes its
  // bytes while others write theirs, and publishes its offset under a third.  Every step below is what
  // one thread does without being interrupted by a thread that needs the same lock.

  import opened Basics

  type Bytes = seq<byte>
  type Digest = nat

  const AUX_DATA_GROW: nat := 4096

  datatype Config = Config(hash: Bytes -> Digest, deduplicate: bool, growSize: nat)

  datatype Call =
    | Waiting
    | Reserved(id: nat)             // id and range are reserved
    | MustGrow(id: nat)             // the unlocked size check failed
    | Fits(id: nat)                 // the store covers the range
    | Writing(id: nat, count: nat)  // holds the grow lock shared; count bytes are written
    | Written(id: nat)
    | Returned(id: nat)

  datatype Entry = Entry(offset: nat, bytes: Bytes)

  /** `log` is history: what was reserved for each id. */
  datatype Factory = Factory(calls: seq<Call>, hash: map<Digest, nat>, idCounter: nat, dataOffset: nat,
                             store: Bytes, idToOffsets: seq<nat>, log: seq<Entry>)

  datatype Step =
    | Reserve(t: nat)
    | CheckSize(t: nat, seen: nat)  // an unlocked read may see any size the store once had
    | Grow(t: nat, space: Bytes)
    | Lock(t: nat)
    | WriteByte(t: nat)
    | Unlock(t: nat)
    | Publish(t: nat, padding: seq<nat>)

  function Max(a: int, b: int): int {
    if a < b then b else a
  }

  ghost predicate Enabled(cfg: Config, s: Factory, e: Step) {
    && e.t < |s.calls|
    && var c := s.calls[e.t];
       match e
       case Reserve(_) => c.Waiting?
       case CheckSize(_, seen) => c.Reserved? && c.id < |s.log| && seen <= |s.store|
       case Grow(_, space) =>
         && c.MustGrow? && c.id < |s.log| && (forall u :: 0 <= u < |s.calls| ==> !s.calls[u].Writing?)
         && |space| == Max(End(s.log[c.id]) - |s.store|, cfg.growSize)
       case Lock(_) => c.Fits?
       case WriteByte(_) =>
         c.Writing? && c.id < |s.log| && c.count < |s.log[c.id].bytes| && s.log[c.id].offset + c.count < |s.store|
       case Unlock(_) => c.Writing? && c.id < |s.log| && c.count == |s.log[c.id].bytes|
       case Publish(_, padding) =>
         c.Written? && c.id < |s.log| && |padding| == Max(c.id + AUX_DATA_GROW - |s.idToOffsets|, 0)
  }

  function End(e: Entry): nat {
    e.offset + |e.bytes|
  }

  function ReserveNew(s: Factory, t: nat, bytes: Bytes): Factory
    requires t < |s.calls|
  {
    s.(calls := s.calls[t := Reserved(s.idCounter)], idCounter := s.idCounter + 1,
       dataOffset := s.dataOffset + |bytes|, log := s.log + [Entry(s.dataOffset, bytes)])
  }

  function Next(cfg: Config, inputs: seq<Bytes>, s: Factory, e: Step): Factory
    requires |inputs| == |s.calls| && Enabled(cfg, s, e)
  {
    var t := e.t;
    match e
    case Reserve(_) =>
      var d := cfg.hash(inputs[t]);
      if cfg.deduplicate && d in s.hash then s.(calls := s.calls[t := Returned(s.hash[d])])
      else if cfg.deduplicate then ReserveNew(s, t, inputs[t]).(hash := s.hash[d := s.idCounter])
      else ReserveNew(s, t, inputs[t])
    case CheckSize(_, seen) =>
      var id := s.calls[t].id;
      s.(calls := s.calls[t := if End(s.log[id]) >= seen then MustGrow(id) else Fits(id)])
    case Grow(_, space) =>
      var id := s.calls[t].id;
      s.(calls := s.calls[t := Fits(id)], store := if End(s.log[id]) >= |s.store| then s.store + space else s.store)
    case Lock(_) => s.(calls := s.calls[t := Writing(s.calls[t].id, 0)])
    case WriteByte(_) =>
      var id, k := s.calls[t].id, s.calls[t].count;
      s.(calls := s.calls[t := Writing(id, k + 1)], store := s.store[s.log[id].offset + k := s.log[id].bytes[k]])
    case Unlock(_) => s.(calls := s.calls[t := Written(s.calls[t].id)])
    case Publish(_, padding) =>
      var id := s.calls[t].id;
      var table := if |s.idToOffsets| <= id then s.idToOffsets + padding else s.idToOffsets;
      s.(calls := s.calls[t := Returned(id)],
         idToOffsets := if id < |table| then table[id := s.log[id].offset] else table)
  }

  function Init(n: nat): Factory {
    Factory(seq(n, _ => Waiting), map[], 0, 0, [], [], [])
  }

  // ---- the invariant ------------------------------------------------------------------------

  predicate Pending(c: Call) {
    !c.Waiting? && !c.Returned?
  }

  predicate Covered(c: Call) {
    c.Fits? || c.Writing? || c.Written?
  }

  /** Ids are dense and their byte ranges lie next to each other in id order. */
  ghost predicate LogOk(s: Factory) {
    && s.idCounter == |s.log|
    && (|s.log| == 0 ==> s.dataOffset == 0)
    && (|s.log| > 0 ==> s.log[0].offset == 0 && s.dataOffset == End(s.log[|s.log| - 1]))
    && (forall i :: 0 <= i < |s.log| - 1 ==> s.log[i + 1].offset == End(s.log[i]))
  }

  /** Range id of the store holds the first n of its bytes. */
  ghost predicate Holds(s: Factory, id: nat, n: nat) {
    && id < |s.log| && n <= |s.log[id].bytes|
    && s.log[id].offset + n <= |s.store|
    && forall k :: 0 <= k < n ==> s.store[s.log[id].offset + k] == s.log[id].bytes[k]
  }

  /** How far a call that owns an id has come. */
  ghost predicate CallOk(s: Factory, c: Call)
    requires !c.Waiting?
  {
    && c.id < |s.log|
    && (Covered(c) ==> End(s.log[c.id]) <= |s.store|)
    && (c.Writing? ==> Holds(s, c.id, c.count))
    && (c.Written? ==> Holds(s, c.id, |s.log[c.id].bytes|))
  }

  /** The entry for id is complete and visible. */
  ghost predicate Published(s: Factory, id: nat) {
    && id < |s.log|
    && Holds(s, id, |s.log[id].bytes|)
    && id < |s.idToOffsets| && s.idToOffsets[id] == s.log[id].offset
  }

  ghost predicate InProgress(s: Factory, id: nat) {
    exists t :: 0 <= t < |s.calls| && Pending(s.calls[t]) && s.calls[t].id == id
  }

  ghost predicate HashOk(cfg: Config, s: Factory) {
    && (forall d :: d in s.hash ==> s.hash[d] < |s.log| && cfg.hash(s.log[s.hash[d]].bytes) == d)
    && (forall id :: 0 <= id < |s.log| ==>
          cfg.hash(s.log[id].bytes) in s.hash && s.hash[cfg.hash(s.log[id].bytes)] == id)
  }

  /** The id a call has been given stands for its own bytes, or for bytes with the same digest. */
  ghost predicate GivenOk(cfg: Config, inputs: seq<Bytes>, s: Factory, t: nat)
    requires t < |s.calls| == |inputs|
  {
    !s.calls[t].Waiting? ==>
      && s.calls[t].id < |s.log|
      && (Pending(s.calls[t]) || !cfg.deduplicate ==> s.log[s.calls[t].id].bytes == inputs[t])
      && cfg.hash(s.log[s.calls[t].id].bytes) == cfg.hash(inputs[t])
  }

  ghost predicate Inv(cfg: Config, inputs: seq<Bytes>, s: Factory) {
    && |inputs| == |s.calls|
    && LogOk(s)
    && (cfg.deduplicate ==> HashOk(cfg, s))
    && (forall t :: 0 <= t < |s.calls| && Pending(s.calls[t]) ==> CallOk(s, s.calls[t]))
    && (forall t, u :: 0 <= t < u < |s.calls| && !s.calls[t].Waiting? && !s.calls[u].Waiting?
                       && (!cfg.deduplicate || (Pending(s.calls[t]) && Pending(s.calls[u]))) ==>
          s.calls[t].id != s.calls[u].id)
    && (forall id: nat :: id < |s.log| ==> Published(s, id) || InProgress(s, id))
    && (forall t :: 0 <= t < |s.calls| ==> GivenOk(cfg, inputs, s, t))
  }

  lemma {:induction false} Ascending(s: Factory, i: nat, j: nat)
    requires LogOk(s) && i < j < |s.log|
    ensures End(s.log[i]) <= s.log[j].offset
    ensures End(s.log[j]) <= s.dataOffset
    decreases j - i, |s.log| - j
  {
    if i + 1 < j {
      Ascending(s, i, j - 1);
    }
    if j + 1 < |s.log| {
      Ascending(s, j, j + 1);
    }
  }

  lemma StoreGrows(s: Factory, s2: Factory, id: nat, n: nat)
    requires Holds(s, id, n) && s2.log == s.log && s.store <= s2.store
    ensures Holds(s2, id, n)
  {
  }

  /** The call at t moves on with its id; the store may have grown. */
  lemma MoveOn(cfg: Config, inputs: seq<Bytes>, s: Factory, s2: Factory, t: nat)
    requires Inv(cfg, inputs, s) && t < |s.calls| && Pending(s.calls[t])
    requires s2 == s.(calls := s2.calls, store := s2.store)
    requires |s2.calls| == |s.calls| && s2.calls == s.calls[t := s2.calls[t]]
    requires Pending(s2.calls[t]) && s2.calls[t].id == s.calls[t].id && s.store <= s2.store
    requires CallOk(s2, s2.calls[t])
    ensures Inv(cfg, inputs, s2)
  {
    forall id: nat | id < |s.log| ensures Published(s2, id) || InProgress(s2, id) {
      if Published(s, id) {
        StoreGrows(s, s2, id, |s.log[id].bytes|);
      } else {
        var u :| 0 <= u < |s.calls| && Pending(s.calls[u]) && s.calls[u].id == id;
        assert Pending(s2.calls[u]) && s2.calls[u].id == id;
      }
    }
    forall u | 0 <= u < |s2.calls| ensures GivenOk(cfg, inputs, s2, u) {
      assert GivenOk(cfg, inputs, s, u);
    }
    forall u | 0 <= u < |s2.calls| && u != t && Pending(s2.calls[u]) ensures CallOk(s2, s2.calls[u]) {
      var c := s.calls[u];
      if c.Writing? {
        StoreGrows(s, s2, c.id, c.count);
      } else if c.Written? {
        StoreGrows(s, s2, c.id, |s.log[c.id].bytes|);
      }
    }
  }

  /** Writing a byte of one range touches no other. */
  lemma OthersHold(cfg: Config, inputs: seq<Bytes>, s: Factory, t: nat)
    requires |inputs| == |s.calls| && LogOk(s) && Enabled(cfg, s, WriteByte(t))
    ensures forall id: nat, n: nat :: id != s.calls[t].id && Holds(s, id, n) ==>
              Holds(Next(cfg, inputs, s, WriteByte(t)), id, n)
  {
    var mine := s.calls[t].id;
    forall id: nat, n: nat | id != mine && Holds(s, id, n) ensures Holds(Next(cfg, inputs, s, WriteByte(t)), id, n) {
      if id < mine { Ascending(s, id, mine); } else { Ascending(s, mine, id); }
    }
  }

  lemma WriteKeeps(cfg: Config, inputs: seq<Bytes>, s: Factory, t: nat)
    requires Inv(cfg, inputs, s) && Enabled(cfg, s, WriteByte(t))
    ensures Inv(cfg, inputs, Next(cfg, inputs, s, WriteByte(t)))
  {
    var s2 := Next(cfg, inputs, s, WriteByte(t));
    var mine := s.calls[t].id;
    OthersHold(cfg, inputs, s, t);
    forall id: nat | id < |s.log| ensures Published(s2, id) || InProgress(s2, id) {
      if id == mine {
        assert Pending(s2.calls[t]) && s2.calls[t].id == id;
      } else if Published(s, id) {
        assert Holds(s2, id, |s.log[id].bytes|);
      } else {
        var u :| 0 <= u < |s.calls| && Pending(s.calls[u]) && s.calls[u].id == id;
        assert Pending(s2.calls[u]) && s2.calls[u].id == id;
      }
    }
    forall u | 0 <= u < |s2.calls| && Pending(s2.calls[u]) ensures CallOk(s2, s2.calls[u]) {
      assert CallOk(s, s.calls[u]);
      assert u != t ==> s.calls[u].id != mine;
    }
    forall u | 0 <= u < |s2.calls| ensures GivenOk(cfg, inputs, s2, u) {
      assert GivenOk(cfg, inputs, s, u);
    }
  }

  lemma PublishKeeps(cfg: Config, inputs: seq<Bytes>, s: Factory, e: Step)
    requires e.Publish? && Inv(cfg, inputs, s) && Enabled(cfg, s, e)
    ensures Inv(cfg, inputs, Next(cfg, inputs, s, e))
  {
    var s2, mine := Next(cfg, inputs, s, e), s.calls[e.t].id;
    assert CallOk(s, s.calls[e.t]);
    forall id: nat | id < |s.log| ensures Published(s2, id) || InProgress(s2, id) {
      if id == mine {
        assert Holds(s2, id, |s.log[id].bytes|);
      } else if Published(s, id) {
        assert Holds(s2, id, |s.log[id].bytes|);
      } else {
        var u :| 0 <= u < |s.calls| && Pending(s.calls[u]) && s.calls[u].id == id;
        assert Pending(s2.calls[u]) && s2.calls[u].id == id;
      }
    }
    forall u | 0 <= u < |s2.calls| && Pending(s2.calls[u]) ensures CallOk(s2, s2.calls[u]) {
      assert CallOk(s, s.calls[u]);
    }
    forall u | 0 <= u < |s2.calls| ensures GivenOk(cfg, inputs, s2, u) {
      assert GivenOk(cfg, inputs, s, u);
    }
  }

  lemma HitKeeps(cfg: Config, inputs: seq<Bytes>, s: Factory, t: nat)
    requires Inv(cfg, inputs, s) && Enabled(cfg, s, Reserve(t))
    requires cfg.deduplicate && cfg.hash(inputs[t]) in s.hash
    ensures Inv(cfg, inputs, Next(cfg, inputs, s, Reserve(t)))
  {
    var s2 := Next(cfg, inputs, s, Reserve(t));
    forall id: nat | id < |s.log| ensures Published(s2, id) || InProgress(s2, id) {
      if Published(s, id) {
        assert Holds(s2, id, |s.log[id].bytes|);
      } else {
        var u :| 0 <= u < |s.calls| && Pending(s.calls[u]) && s.calls[u].id == id;
        assert Pending(s2.calls[u]) && s2.calls[u].id == id;
      }
    }
    forall u | 0 <= u < |s2.calls| && Pending(s2.calls[u]) ensures CallOk(s2, s2.calls[u]) {
      assert CallOk(s, s.calls[u]);
    }
    forall u | 0 <= u < |s2.calls| ensures GivenOk(cfg, inputs, s2, u) {
      assert GivenOk(cfg, inputs, s, u);
    }
  }

  lemma ReserveKeeps(cfg: Config, inputs: seq<Bytes>, s: Factory, t: nat)
    requires Inv(cfg, inputs, s) && Enabled(cfg, s, Reserve(t))
    requires !(cfg.deduplicate && cfg.hash(inputs[t]) in s.hash)
    ensures Inv(cfg, inputs, Next(cfg, inputs, s, Reserve(t)))
  {
    var s2 := Next(cfg, inputs, s, Reserve(t));
    assert s2.log == s.log + [Entry(s.dataOffset, inputs[t])] && s2.store == s.store;
    assert LogOk(s2);
    forall u | 0 <= u < |s2.calls| ensures GivenOk(cfg, inputs, s2, u) {
      assert GivenOk(cfg, inputs, s, u);
    }
    forall u | 0 <= u < |s2.calls| && Pending(s2.calls[u]) ensures CallOk(s2, s2.calls[u]) {
      if u != t { CallStillOk(s, s2, s.calls[u]); }
    }
    forall id: nat | id < |s2.log| ensures Published(s2, id) || InProgress(s2, id) {
      if id == |s.log| {
        assert Pending(s2.calls[t]) && s2.calls[t].id == id;
      } else {
        StillKnown(s, s2, t, id);
      }
    }
    ReserveIds(cfg, inputs, s, t);
    if cfg.deduplicate { ReserveHash(cfg, inputs, s, t); }
  }

  /** A call that was waiting takes no id from another. */
  lemma StillKnown(s: Factory, s2: Factory, t: nat, id: nat)
    requires t < |s.calls| && s.calls[t].Waiting? && |s2.calls| == |s.calls|
    requires forall u :: 0 <= u < |s.calls| && u != t ==> s2.calls[u] == s.calls[u]
    requires s.log <= s2.log && s2.store == s.store && s2.idToOffsets == s.idToOffsets
    requires id < |s.log| && (Published(s, id) || InProgress(s, id))
    ensures Published(s2, id) || InProgress(s2, id)
  {
    if Published(s, id) {
      assert Holds(s2, id, |s.log[id].bytes|);
    } else {
      var u :| 0 <= u < |s.calls| && Pending(s.calls[u]) && s.calls[u].id == id;
      assert Pending(s2.calls[u]) && s2.calls[u].id == id;
    }
  }

  lemma ReserveHash(cfg: Config, inputs: seq<Bytes>, s: Factory, t: nat)
    requires |inputs| == |s.calls| && Enabled(cfg, s, Reserve(t)) && cfg.deduplicate
    requires s.idCounter == |s.log| && HashOk(cfg, s) && cfg.hash(inputs[t]) !in s.hash
    ensures HashOk(cfg, Next(cfg, inputs, s, Reserve(t)))
  {
  }

  lemma CallStillOk(s: Factory, s2: Factory, c: Call)
    requires Pending(c) && CallOk(s, c) && s.log <= s2.log && s2.store == s.store
    ensures CallOk(s2, c)
  {
  }

  lemma ReserveIds(cfg: Config, inputs: seq<Bytes>, s: Factory, t: nat)
    requires Inv(cfg, inputs, s) && Enabled(cfg, s, Reserve(t))
    requires !(cfg.deduplicate && cfg.hash(inputs[t]) in s.hash)
    ensures var s2 := Next(cfg, inputs, s, Reserve(t));
            forall v, u :: 0 <= v < u < |s2.calls| && !s2.calls[v].Waiting? && !s2.calls[u].Waiting?
                           && (!cfg.deduplicate || (Pending(s2.calls[v]) && Pending(s2.calls[u]))) ==>
              s2.calls[v].id != s2.calls[u].id
  {
    forall u | 0 <= u < |s.calls| && !s.calls[u].Waiting? ensures s.calls[u].id < s.idCounter {
      assert GivenOk(cfg, inputs, s, u);
    }
  }

  /** Every step of every thread keeps the invariant.  A stale size can only send a call to the locked
      check, which looks again. */
  lemma StepKeeps(cfg: Config, inputs: seq<Bytes>, s: Factory, e: Step)
    requires Inv(cfg, inputs, s) && Enabled(cfg, s, e)
    ensures Inv(cfg, inputs, Next(cfg, inputs, s, e))
  {
    var s2 := Next(cfg, inputs, s, e);
    match e
    case Reserve(t) =>
      if cfg.deduplicate && cfg.hash(inputs[t]) in s.hash { HitKeeps(cfg, inputs, s, t); } else { ReserveKeeps(cfg, inputs, s, t); }
    case WriteByte(t) => WriteKeeps(cfg, inputs, s, t);
    case Publish(_, _) => PublishKeeps(cfg, inputs, s, e);
    case _ =>
      assert CallOk(s, s.calls[e.t]);
      MoveOn(cfg, inputs, s, s2, e.t);
  }

  /** The store grows only while nobody writes into it, and only for a call whose range reaches its end; it is then
      large enough for the range. */
  lemma GrowsAlone(cfg: Config, inputs: seq<Bytes>, s: Factory, e: Step)
    requires |inputs| == |s.calls| && Enabled(cfg, s, e) && |Next(cfg, inputs, s, e).store| != |s.store|
    ensures forall u :: 0 <= u < |s.calls| ==> !s.calls[u].Writing?
    ensures Pending(s.calls[e.t]) && s.calls[e.t].id < |s.log|
    ensures |s.store| <= End(s.log[s.calls[e.t].id]) <= |Next(cfg, inputs, s, e).store|
  {
  }

  /** A writing call never leaves the store, and while calls are under way some call can go on: nobody
      waits for a lock for ever. */
  lemma Progress(cfg: Config, inputs: seq<Bytes>, s: Factory, t: nat)
    requires Inv(cfg, inputs, s) && t < |s.calls| && !s.calls[t].Returned?
    ensures s.calls[t].Writing? ==>
              Enabled(cfg, s, if s.calls[t].count < |s.log[s.calls[t].id].bytes| then WriteByte(t) else Unlock(t))
    ensures exists e :: Enabled(cfg, s, e)
  {
    var u: nat := t;
    if s.calls[t].MustGrow? {
      if v: nat :| v < |s.calls| && s.calls[v].Writing? { u := v; }
    }
    assert Pending(s.calls[t]) ==> CallOk(s, s.calls[t]);
    assert Pending(s.calls[u]) ==> CallOk(s, s.calls[u]);
    var e := match s.calls[u]
      case Reserved(_) => CheckSize(u, 0)
      case MustGrow(id) => Grow(u, seq(Max(End(s.log[id]) - |s.store|, cfg.growSize), _ => 0))
      case Fits(_) => Lock(u)
      case Writing(id, k) => if k < |s.log[id].bytes| then WriteByte(u) else Unlock(u)
      case Written(id) => Publish(u, seq(Max(id + AUX_DATA_GROW - |s.idToOffsets|, 0), _ => 0))
      case _ => Reserve(u);
    assert Enabled(cfg, s, e);
  }

  ghost predicate IsRun(cfg: Config, inputs: seq<Bytes>, s: Factory, run: seq<Step>)
    requires |inputs| == |s.calls|
    decreases run
  {
    run == [] || (Enabled(cfg, s, run[0]) && IsRun(cfg, inputs, Next(cfg, inputs, s, run[0]), run[1..]))
  }

  ghost function After(cfg: Config, inputs: seq<Bytes>, s: Factory, run: seq<Step>): (r: Factory)
    requires |inputs| == |s.calls| && IsRun(cfg, inputs, s, run)
    ensures |r.calls| == |s.calls|
    decreases run
  {
    if run == [] then s else After(cfg, inputs, Next(cfg, inputs, s, run[0]), run[1..])
  }

  lemma {:induction false} RunKeeps(cfg: Config, inputs: seq<Bytes>, s: Factory, run: seq<Step>)
    requires Inv(cfg, inputs, s) && IsRun(cfg, inputs, s, run)
    ensures Inv(cfg, inputs, After(cfg, inputs, s, run))
    decreases run
  {
    if run != [] {
      StepKeeps(cfg, inputs, s, run[0]);
      RunKeeps(cfg, inputs, Next(cfg, inputs, s, run[0]), run[1..]);
    }
  }

  // ---- reading back -------------------------------------------------------------------------

  /** What flush hands over: the offsets of all ids and the data up to the last reserved byte. */
  datatype IndexStore = IndexStore(offsets: seq<nat>, data: Bytes)
  {
    /** The length of the data of index pos; it ends where the next index begins. */
    function DataSize(pos: nat): int {
      if pos >= |offsets| then 0
      else if pos + 1 == |offsets| then |data| - offsets[pos]
      else var next: int := offsets[pos + 1]; next - offsets[pos]
    }

    function RawDataAt(pos: nat): Bytes {
      if pos >= |offsets| || DataSize(pos) < 0 || offsets[pos] + DataSize(pos) > |data| then []
      else data[offsets[pos]..offsets[pos] + DataSize(pos)]
    }
  }

  function Flush(s: Factory): IndexStore
    requires s.dataOffset <= |s.store| && s.idCounter <= |s.idToOffsets|
  {
    IndexStore(s.idToOffsets[..s.idCounter], s.store[..s.dataOffset])
  }

  ghost predicate Quiet(s: Factory) {
    forall t :: 0 <= t < |s.calls| ==> !Pending(s.calls[t])
  }

  lemma QuietIsPublished(cfg: Config, inputs: seq<Bytes>, s: Factory)
    requires Inv(cfg, inputs, s) && Quiet(s)
    ensures forall id: nat :: id < |s.log| ==> Published(s, id)
    ensures s.dataOffset <= |s.store| && s.idCounter <= |s.idToOffsets|
  {
    if |s.log| > 0 {
      assert Published(s, |s.log| - 1);
    }
  }

  /** Once no call is under way, reading an id back gives exactly the bytes reserved for it. */
  lemma ReadBack(cfg: Config, inputs: seq<Bytes>, s: Factory, id: nat)
    requires Inv(cfg, inputs, s) && Quiet(s) && id < |s.log|
    ensures s.dataOffset <= |s.store| && s.idCounter <= |s.idToOffsets|
    ensures Flush(s).RawDataAt(id) == s.log[id].bytes
  {
    QuietIsPublished(cfg, inputs, s);
    assert Published(s, id);
    if id + 1 < |s.log| {
      assert Published(s, id + 1);
      Ascending(s, id, id + 1);
    }
  }

  /** Any number of calls, interleaved in any way, until all have returned: each call reads back bytes with
      its own digest, which are its own bytes if no two inputs collide or nothing is shared; with sharing,
      calls get the same id exactly when their digests agree, without it all ids differ. */
  lemma AddIndexCorrect(cfg: Config, inputs: seq<Bytes>, run: seq<Step>, s: Factory, t: nat, u: nat)
    requires IsRun(cfg, inputs, Init(|inputs|), run) && s == After(cfg, inputs, Init(|inputs|), run)
    requires forall v :: 0 <= v < |s.calls| ==> s.calls[v].Returned?
    requires t < |inputs| && u < |inputs|
    ensures s.dataOffset <= |s.store| && s.idCounter <= |s.idToOffsets|
    ensures cfg.hash(Flush(s).RawDataAt(s.calls[t].id)) == cfg.hash(inputs[t])
    ensures !cfg.deduplicate || CollisionFree(cfg) ==> Flush(s).RawDataAt(s.calls[t].id) == inputs[t]
    ensures cfg.deduplicate ==> (s.calls[t].id == s.calls[u].id <==> cfg.hash(inputs[t]) == cfg.hash(inputs[u]))
    ensures !cfg.deduplicate && t != u ==> s.calls[t].id != s.calls[u].id
  {
    assert Inv(cfg, inputs, Init(|inputs|));
    RunKeeps(cfg, inputs, Init(|inputs|), run);
    assert GivenOk(cfg, inputs, s, t) && GivenOk(cfg, inputs, s, u);
    assert Quiet(s);
    ReadBack(cfg, inputs, s, s.calls[t].id);
  }

  ghost predicate CollisionFree(cfg: Config) {
    forall x: Bytes, y: Bytes :: cfg.hash(x) == cfg.hash(y) ==> x == y
  }
}
