/** The worker that runs picoprocesses: its events as atomic steps over the residency sets and the picos' states. */
module Worker {
  import opened Common

  datatype Status = Init | Running | Checkpointing | Stopped | Exited

  /** should_alive: not set, killed, or woken while checkpointing. */
  datatype Wish = Unset | Killed | Alive

  /** Whether the worker takes new picos, as it tells the hub. */
  datatype HubStatus = Available | Overloaded

  /** What the worker tells the hub. */
  datatype Message = Released(id: int) | StatusIs(status: HubStatus)

  /** What runs when the monitor of a pico stops. */
  datatype Callback = NoCallback | NapCallback | ReleaseCallback

  class Pico {
    const id: int
    const ports: seq<int>
    var resume: bool
    var monitor: bool
    var status: Status
    var shouldAlive: Wish
    var callback: Callback

    constructor (i: int, portmaps: seq<int>, r: bool)
      ensures id == i && ports == portmaps && resume == r
      ensures !monitor && status == Init && shouldAlive == Unset && callback == NoCallback
    {
      id, ports, resume := i, portmaps, r;
      monitor, status, shouldAlive, callback := false, Init, Unset, NoCallback;
    }

    /** A monitor exists exactly while the pico runs or is being checkpointed, and a wake-up is pending only in a checkpoint. */
    ghost predicate Ok()
      reads this`monitor, this`status, this`shouldAlive
    {
      && (monitor <==> status == Running || status == Checkpointing)
      && (shouldAlive == Alive ==> status == Checkpointing)
    }

    ghost predicate Woken()
      reads this`status, this`shouldAlive
    {
      status == Checkpointing && shouldAlive == Alive
    }

    lemma NotWoken()
      requires shouldAlive != Alive
      ensures !Woken()
    {
    }

    method Execute()
      requires monitor ==> Ok()
      modifies this`shouldAlive, this`monitor, this`status
      ensures Ok() && (old(Woken() && monitor) ==> Woken())
      ensures !old(monitor) ==> status == Running && monitor && shouldAlive == Unset
      ensures old(monitor) ==> status == old(status) && shouldAlive == old(shouldAlive)
    {
      if monitor {
        return;
      }
      shouldAlive := Unset;
      monitor := true;
      status := Running;
    }

    method Checkpoint()
      requires Ok()
      modifies this`status
      ensures Ok() && (old(Woken()) ==> Woken())
      ensures status == if old(status) == Running then Checkpointing else old(status)
    {
      if monitor && status != Stopped && status != Checkpointing {
        status := Checkpointing;
      }
    }
  }

  function Dropped(s: seq<int>, x: int): (r: seq<int>)
    ensures forall y :: y in r <==> y in s && y != x
  {
    if s == [] then [] else (if s[0] == x then [] else [s[0]]) + Dropped(s[1..], x)
  }

  lemma {:induction false} DroppedLength(s: seq<int>, x: int)
    requires Distinct(s)
    ensures Distinct(Dropped(s, x)) && |Dropped(s, x)| == |s| - if x in s then 1 else 0
    decreases |s|
  {
    if s != [] {
      DroppedLength(s[1..], x);
      var r := Dropped(s[1..], x);
      forall y | y in r
        ensures y in s[1..]
      {
      }
      if s[0] != x {
        DistinctCons(s[0], r, s);
      }
    }
  }

  lemma {:induction false} DroppedConcat(a: seq<int>, b: seq<int>, x: int)
    ensures Dropped(a + b, x) == Dropped(a, x) + Dropped(b, x)
    decreases |a|
  {
    if a == [] {
      assert a + b == b;
    } else {
      hide Dropped;
      DroppedConcat(a[1..], b, x);
      assert (a + b)[0] == a[0] && (a + b)[1..] == a[1..] + b;
      DroppedFirst(a, x);
      DroppedFirst(a + b, x);
    }
  }

  lemma DroppedFirst(s: seq<int>, x: int)
    requires s != []
    ensures Dropped(s, x) == (if s[0] == x then [] else [s[0]]) + Dropped(s[1..], x)
  {
  }

  /** The others keep their order. */
  lemma DroppedOne(a: seq<int>, x: int, b: seq<int>)
    requires x !in a && x !in b
    ensures Dropped(a + [x] + b, x) == a + b
  {
    hide Dropped;
    DroppedConcat(a + [x], b, x);
    DroppedConcat(a, [x], x);
    DroppedNone(a, x);
    DroppedNone(b, x);
    DroppedSelf(x);
  }

  lemma DroppedSelf(x: int)
    ensures Dropped([x], x) == []
  {
  }

  lemma DistinctCons(c: int, r: seq<int>, s: seq<int>)
    requires Distinct(r) && Distinct(s) && s != [] && s[0] == c && forall y <- r :: y in s[1..]
    ensures Distinct([c] + r)
  {
    forall j | 0 <= j < |r|
      ensures r[j] != c
    {
      assert r[j] in r;
      var k :| 0 <= k < |s[1..]| && s[1..][k] == r[j];
      assert s[k + 1] == r[j];
    }
  }

  lemma DistinctSnoc(s: seq<int>, x: int)
    requires Distinct(s) && x !in s
    ensures Distinct(s + [x])
  {
  }

  /** Dictionary order is insertion order: the first entry is the oldest. */
  function Napped(hot: seq<int>, warm: seq<int>, maxHot: nat): (seq<int>, seq<int>) {
    if |hot| > maxHot then (hot[1..], warm + [hot[0]]) else (hot, warm)
  }

  function Evicted(hot: seq<int>, warm: seq<int>, maxPico: nat): (seq<int>, seq<int>) {
    if |hot| + |warm| <= maxPico then (hot, warm)
    else if |warm| > 0 then (hot, warm[1..])
    else (hot[1..], warm)
  }

  /** The residency sets after a pico has been made hot: the oldest hot pico naps, then the oldest warm one is released. */
  function MadeHot(hot: seq<int>, warm: seq<int>, i: int, maxHot: nat, maxPico: nat): (seq<int>, seq<int>) {
    var (h, w) := Rested(hot, warm, i, maxHot);
    Evicted(h, w, maxPico)
  }

  /** With room for one hot pico, a pico that was not hot is hot once it has been made so. */
  lemma MadeHotKeeps(hot: seq<int>, warm: seq<int>, i: int, maxHot: nat, maxPico: nat)
    requires Distinct(hot) && Distinct(warm) && (forall x :: x in hot ==> x !in warm)
    requires |hot| <= maxHot && |hot| + |warm| <= maxPico && 0 < maxHot && 0 < maxPico && i !in hot
    ensures i in MadeHot(hot, warm, i, maxHot, maxPico).0
  {
    DroppedLength(warm, i);
    var h1 := hot + [i];
    assert h1[|h1| - 1] == i;
    if |h1| > maxHot {
      assert h1[1..][|h1| - 2] == i;
    }
  }

  /** The last n entries, or all of them. */
  function Youngest(s: seq<int>, n: nat): seq<int> {
    if |s| <= n then s else s[|s| - n..]
  }

  /**
   * After a pico has been made hot, the youngest entries are hot, as many as the limits allow, and the youngest of those that were
   * warm or nap are warm, as many as there is room for beside them.
   */
  lemma YoungestStay(hot: seq<int>, warm: seq<int>, i: int, maxHot: nat, maxPico: nat)
    requires Distinct(warm) && |hot| <= maxHot && |hot| + |warm| <= maxPico && (forall x :: x in hot ==> x !in warm)
    ensures var h := if i in hot then hot else hot + [i];
            var w := Dropped(warm, i) + h[..|h| - |Youngest(h, maxHot)|];
            var (h', w') := MadeHot(hot, warm, i, maxHot, maxPico);
            && h' == Youngest(h, if maxHot < maxPico then maxHot else maxPico)
            && |h'| <= maxPico && w' == Youngest(w, maxPico - |h'|)
  {
    DroppedLength(warm, i);
    var h := if i in hot then hot else hot + [i];
    var w := Dropped(warm, i);
    if |h| > maxHot {
      assert h[..1] == [h[0]];
      assert (w + [h[0]])[1..] == Youngest(w + [h[0]], |w|);
    } else {
      assert w + h[..0] == w;
    }
  }

  /** Who naps when i is made hot. */
  function NapOf(hot: seq<int>, i: int, maxHot: nat): Option<int> {
    var h := if i in hot then hot else hot + [i];
    if |h| > maxHot then Some(h[0]) else None
  }

  /** Who is released from sets that are too large. */
  function VictimOf(hot: seq<int>, warm: seq<int>, maxPico: nat): Option<int> {
    if |hot| + |warm| <= maxPico then None
    else if |warm| > 0 then Some(warm[0])
    else Some(hot[0])
  }

  /** The sets after the nap that making i hot may bring. */
  function Rested(hot: seq<int>, warm: seq<int>, i: int, maxHot: nat): (seq<int>, seq<int>) {
    Napped(if i in hot then hot else hot + [i], Dropped(warm, i), maxHot)
  }

  function Residents(hot: seq<int>, warm: seq<int>, i: int): nat {
    |hot| + |warm| + if i in hot || i in warm then 0 else 1
  }

  lemma RestedLength(hot: seq<int>, warm: seq<int>, i: int, maxHot: nat)
    requires Distinct(warm) && forall x :: x in hot ==> x !in warm
    ensures var (h, w) := Rested(hot, warm, i, maxHot); |h| + |w| == Residents(hot, warm, i)
  {
    DroppedLength(warm, i);
  }

  /** The status for a number of resident picos: it changes at two thresholds and is kept between them. */
  function NextStatus(was: HubStatus, count: nat, maxPico: nat, threshold: nat): HubStatus {
    if count > maxPico then Overloaded else if count < threshold then Available else was
  }

  /** The status after a history of counts. */
  ghost function StatusOf(counts: seq<nat>, maxPico: nat, threshold: nat): HubStatus {
    if counts == [] then Available
    else NextStatus(StatusOf(counts[..|counts| - 1], maxPico, threshold), counts[|counts| - 1], maxPico, threshold)
  }

  /** The count at k exceeded the limit, and none since has been low. */
  ghost predicate OverfullSince(counts: seq<nat>, k: nat, maxPico: nat, threshold: nat) {
    && k < |counts| && counts[k] > maxPico
    && forall j :: k < j < |counts| ==> counts[j] > maxPico || counts[j] >= threshold
  }

  /** The worker is overloaded exactly if it has been overfull and has not been below its threshold since. */
  lemma {:induction false} StatusHistory(counts: seq<nat>, maxPico: nat, threshold: nat)
    ensures StatusOf(counts, maxPico, threshold) == Overloaded <==> exists k :: OverfullSince(counts, k, maxPico, threshold)
    decreases |counts|
  {
    if counts != [] {
      var n := |counts| - 1;
      var c := counts[..n];
      StatusHistory(c, maxPico, threshold);
      if counts[n] > maxPico {
        assert OverfullSince(counts, n, maxPico, threshold);
      } else if counts[n] >= threshold {
        if k: nat :| OverfullSince(c, k, maxPico, threshold) {
          assert OverfullSince(counts, k, maxPico, threshold);
        }
        forall k: nat | OverfullSince(counts, k, maxPico, threshold)
          ensures OverfullSince(c, k, maxPico, threshold)
        {
          assert forall j :: k < j < n ==> c[j] == counts[j];
        }
      }
    }
  }

  /** The status the hub knows of: the last one it was told. */
  function LastStatus(ms: seq<Message>): HubStatus {
    if ms == [] then Available
    else match ms[|ms| - 1]
      case StatusIs(s) => s
      case Released(_) => LastStatus(ms[..|ms| - 1])
  }

  lemma ReleasedStatus(ms: seq<Message>, i: int)
    ensures LastStatus(ms + [Released(i)]) == LastStatus(ms)
  {
    assert (ms + [Released(i)])[..|ms|] == ms;
  }

  function Told(ms: seq<Message>, was: HubStatus, now: HubStatus): (r: seq<Message>)
    ensures LastStatus(ms) == was ==> LastStatus(r) == now
  {
    if was == now then ms else
      assert (ms + [StatusIs(now)])[..|ms|] == ms;
      ms + [StatusIs(now)]
  }

  /** A status once a checkpoint has been asked for. */
  function Resting(s: Status): Status {
    if s == Running then Checkpointing else s
  }

  /** should_alive once traffic has come for a pico. */
  function Wanted(s: Status, was: Wish): Wish {
    match s
    case Stopped => Unset
    case Checkpointing => Alive
    case _ => was
  }

  lemma {:induction false} DroppedNone(s: seq<int>, x: int)
    requires x !in s
    ensures Dropped(s, x) == s
    decreases |s|
  {
    if s != [] {
      DroppedNone(s[1..], x);
    }
  }

  function Unmapped(m: map<int, int>, ports: seq<int>): map<int, int> {
    map q | q in m && q !in ports :: m[q]
  }

  lemma UnmappedStep(m: map<int, int>, ports: seq<int>, n: nat)
    requires n < |ports| && Distinct(ports[..n])
    ensures Unmapped(m, ports[..n + 1]) == Unmapped(m, ports[..n]) - {ports[n]}
    ensures ports[n] in Unmapped(m, ports[..n]) <==> ports[n] in m && Distinct(ports[..n + 1])
    ensures forall q <- ports[..n + 1] :: q == ports[n] || q in ports[..n]
    ensures Distinct(ports) ==> Distinct(ports[..n + 1])
  {
    var a, b := ports[..n], ports[..n + 1];
    assert b == a + [ports[n]];
    if ports[n] in a {
      var k :| 0 <= k < n && a[k] == ports[n];
      assert b[k] == b[n];
    } else {
      DistinctSnoc(a, ports[n]);
    }
  }

  /** The status and the callback of every pico. */
  type View = map<Pico, (Status, Callback)>

  /** A pico of the table is checkpointed, with a callback. */
  ghost function Asked(v: View, table: map<int, Pico>, o: Option<int>, cb: Callback): View {
    if o.Some? && o.value in table && table[o.value] in v then
      v[table[o.value] := (Resting(v[table[o.value]].0), cb)]
    else v
  }

  /** The upload that a release of a stopped pico starts at once. */
  ghost function Queued(v: View, table: map<int, Pico>, o: Option<int>): multiset<int> {
    if o.Some? && o.value in table && table[o.value] in v && v[table[o.value]].0 == Stopped then multiset{o.value}
    else multiset{}
  }

  lemma AskedQueued(v: View, table: map<int, Pico>, o: Option<int>, cb: Callback, o': Option<int>)
    ensures Queued(Asked(v, table, o, cb), table, o') == Queued(v, table, o') && Asked(v, table, o, cb).Keys == v.Keys
  {
  }

  class Worker {
    const maxHot: nat
    const maxPico: nat
    const threshold: nat
    var picos: map<int, Pico>
    var mapping: map<int, int>
    var hot: seq<int>
    var warm: seq<int>
    var uploads: multiset<int>
    var hubStatus: HubStatus
    var messages: seq<Message> // all that was sent to the hub
    ghost var all: set<Pico>

    /** Every pico ever made is consistent, and the table lists picos under their own ids, none of them killed. */
    ghost predicate PicosOk()
      reads this`picos, this`all, all`monitor, all`status, all`shouldAlive
    {
      && (forall p <- all :: p.Ok())
      && forall i <- picos.Keys :: picos[i] in all && picos[i].id == i && picos[i].shouldAlive != Killed
    }

    /** Hot and warm are disjoint and hold known picos only. */
    ghost predicate SetsOk()
      reads this`picos, this`hot, this`warm
    {
      && Distinct(hot) && Distinct(warm) && (forall i :: i in hot ==> i !in warm)
      && (forall i :: i in hot ==> i in picos) && forall i :: i in warm ==> i in picos
    }

    /** The hub knows the worker's status. */
    ghost predicate HubOk()
      reads this`hubStatus, this`messages
    {
      LastStatus(messages) == hubStatus
    }

    ghost predicate Valid()
      reads this, all
    {
      PicosOk() && SetsOk() && HubOk() && |hot| <= maxHot && |hot| + |warm| <= maxPico
    }

    /** Every running pico of the table is hot, so that the hot limit bounds the picos that run. */
    ghost predicate RunningHot()
      reads this`picos, this`all, this`hot, all`status
    {
      forall i <- picos.Keys :: picos[i] in all && picos[i].status == Running ==> i in hot
    }

    /** Every pico with a monitor is in the table, unless it was killed. */
    ghost predicate Tracked()
      reads this`picos, this`all, all`monitor, all`shouldAlive
    {
      forall p <- all :: p.monitor && p.shouldAlive != Killed ==> p.id in picos && picos[p.id] == p
    }

    ghost function StatusAfter(ok: bool, was: HubStatus, count: nat): HubStatus {
      if ok then NextStatus(was, count, maxPico, threshold) else was
    }

    ghost function View(): View
      reads this`all, all`status, all`callback
    {
      map q | q in all :: (q.status, q.callback)
    }

    /** No pending wake-up is lost: it survives every step but the exit of its monitor and its kill. */
    twostate predicate KeepsWoken()
      reads this`all, all`status, all`shouldAlive
    {
      forall p <- old(all) :: p in all && (old(p.Woken()) ==> p.Woken())
    }

    constructor (h: nat, m: nat, t: nat)
      ensures Valid() && RunningHot() && Tracked()
      ensures maxHot == h && maxPico == m && threshold == t && messages == [] && uploads == multiset{}
      ensures picos == map[] && mapping == map[] && hot == [] && warm == [] && all == {} && View() == map[]
    {
      maxHot, maxPico, threshold := h, m, t;
      picos, mapping, hot, warm, uploads := map[], map[], [], [], multiset{};
      hubStatus, messages := Available, [];
      all := {};
    }

    /** No more picos of the table run than the hot limit allows. */
    lemma RunningBound()
      requires Valid() && RunningHot()
      ensures |set i | i in picos && picos[i].status == Running| <= maxHot
    {
      var running, h := set i | i in picos && picos[i].status == Running, set i | i in hot;
      SetSize(hot);
      assert forall i <- running :: i in h;
      SubsetSize(running, h);
    }

    // ----- residency

    method Remove(i: int)
      requires SetsOk()
      modifies this`hot, this`warm
      ensures SetsOk() && hot == Dropped(old(hot), i) && warm == Dropped(old(warm), i)
      ensures |hot| <= old(|hot|) && |warm| <= old(|warm|)
    {
      DroppedLength(hot, i);
      DroppedLength(warm, i);
      hot := Dropped(hot, i);
      warm := Dropped(warm, i);
    }

    method MakeWarm(i: int)
      requires SetsOk() && i in picos
      modifies this`hot, this`warm
      ensures SetsOk() && hot == Dropped(old(hot), i) && warm == if i in old(warm) then old(warm) else old(warm) + [i]
    {
      DroppedLength(hot, i);
      hot := Dropped(hot, i);
      if i !in warm {
        DistinctSnoc(warm, i);
        warm := warm + [i];
      }
    }

    // ----- the pico table

    /** PicoManager.checkpoint on a pico of the table. */
    method CheckpointPico(i: int, cb: Callback)
      requires PicosOk() && i in picos
      modifies this`uploads, all`status, all`callback
      ensures PicosOk() && KeepsWoken()
      ensures View() == Asked(old(View()), picos, Some(i), cb)
      ensures uploads == old(uploads) + if cb == ReleaseCallback then Queued(old(View()), picos, Some(i)) else multiset{}
    {
      var p := picos[i];
      p.callback := cb;
      if p.status == Stopped {
        if cb == ReleaseCallback {
          uploads := uploads + multiset{i};
        }
      } else {
        p.Checkpoint();
      }
    }

    /** PicoManager.release: the table entry goes, unless a wake-up is pending. */
    method ReleaseEntry(i: int)
      requires PicosOk()
      modifies this`picos
      ensures PicosOk()
      ensures picos == if i in old(picos) && !old(picos[i].Woken()) then old(picos) - {i} else old(picos)
    {
      if i in picos && picos[i].shouldAlive != Alive {
        picos := picos - {i};
      }
    }

    /** PortMapper.remove_pico: false stands for the exception on an unknown pico or port. */
    method RemoveMappings(i: int) returns (ok: bool)
      modifies this`mapping
      ensures ok <==> i in picos && Removable(old(mapping), picos[i].ports)
      ensures ok ==> mapping == Unmapped(old(mapping), picos[i].ports)
      ensures i !in picos ==> mapping == old(mapping)
      ensures i in picos && !ok ==> exists n :: StoppedAt(old(mapping), picos[i].ports, n, mapping)
    {
      if i !in picos {
        return false;
      }
      var ports := picos[i].ports;
      for n := 0 to |ports|
        invariant mapping == Unmapped(old(mapping), ports[..n]) && Distinct(ports[..n])
        invariant forall q <- ports[..n] :: q in old(mapping)
      {
        UnmappedStep(old(mapping), ports, n);
        assert ports[n] in ports;
        if ports[n] !in mapping {
          assert StoppedAt(old(mapping), ports, n, mapping);
          return false;
        }
        mapping := mapping - {ports[n]};
      }
      assert ports[..|ports|] == ports;
      return true;
    }

    /** PortMapper.add_pico: the ports of the pico lead to it. */
    method AddMappings(i: int)
      requires i in picos
      modifies this`mapping
      ensures mapping == Mapped(old(mapping), picos[i].ports, i)
    {
      var ports := picos[i].ports;
      for n := 0 to |ports|
        invariant mapping == Mapped(old(mapping), ports[..n], i)
      {
        assert ports[..n + 1] == ports[..n] + [ports[n]];
        mapping := mapping[ports[n] := i];
      }
      assert ports[..|ports|] == ports;
    }

    // ----- the worker's operations

    /** pico_nap: the pico is checkpointed and becomes warm. */
    method Nap(i: int)
      requires PicosOk() && SetsOk() && i in picos
      modifies this`hot, this`warm, this`uploads, all`status, all`callback
      ensures PicosOk() && SetsOk() && KeepsWoken() && uploads == old(uploads)
      ensures hot == Dropped(old(hot), i) && warm == if i in old(warm) then old(warm) else old(warm) + [i]
      ensures View() == Asked(old(View()), picos, Some(i), NapCallback)
    {
      CheckpointPico(i, NapCallback);
      MakeWarm(i);
    }

    /** pico_release: the pico is checkpointed; the upload that follows lets it go. */
    method Release(i: int) returns (ok: bool)
      requires PicosOk()
      modifies this`mapping, this`uploads, all`status, all`callback
      ensures PicosOk() && KeepsWoken()
      ensures ok <==> i in picos && Removable(old(mapping), picos[i].ports)
      ensures ok ==> mapping == Unmapped(old(mapping), picos[i].ports)
      ensures i !in picos ==> mapping == old(mapping)
      ensures i in picos && !ok ==> exists n :: StoppedAt(old(mapping), picos[i].ports, n, mapping)
      ensures View() == if ok then Asked(old(View()), picos, Some(i), ReleaseCallback) else old(View())
      ensures uploads == old(uploads) + if ok then Queued(old(View()), picos, Some(i)) else multiset{}
    {
      ok := RemoveMappings(i);
      if ok {
        CheckpointPico(i, ReleaseCallback);
      }
    }

    /** _should_nap: the longest hot pico makes room. */
    method ShouldNap()
      requires PicosOk() && SetsOk() && |hot| <= maxHot + 1
      modifies this`hot, this`warm, this`uploads, all`status, all`callback
      ensures PicosOk() && SetsOk() && KeepsWoken() && uploads == old(uploads)
      ensures (hot, warm) == Napped(old(hot), old(warm), maxHot)
      ensures View() == Asked(old(View()), picos, if old(|hot|) > maxHot then Some(old(hot)[0]) else None, NapCallback)
    {
      if |hot| > maxHot {
        var i := hot[0];
        FirstGone(hot);
        assert i in hot;
        hot := hot[1..];
        DroppedNone(hot, i);
        Nap(i);
      }
    }

    /**
     * _update_hub_status: the longest warm pico, or else the longest hot one, is released, and the hub is told of a
     * change of status; an exception from the release leaves the hub untold.
     */
    method UpdateHubStatus() returns (ok: bool)
      requires PicosOk() && SetsOk() && HubOk() && |hot| <= maxHot && |hot| + |warm| <= maxPico + 1
      modifies this`hot, this`warm, this`mapping, this`uploads, this`hubStatus, this`messages, all`status, all`callback
      ensures Valid() && KeepsWoken() && (hot, warm) == Evicted(old(hot), old(warm), maxPico)
      ensures var victim := VictimOf(old(hot), old(warm), maxPico);
              && (ok <==> victim.None? || (victim.value in picos && Removable(old(mapping), picos[victim.value].ports)))
              && (victim.None? ==> mapping == old(mapping))
              && (ok && victim.Some? ==> mapping == Unmapped(old(mapping), picos[victim.value].ports))
              && (!ok ==> victim.value in picos && exists n :: StoppedAt(old(mapping), picos[victim.value].ports, n, mapping))
              && View() == (if ok then Asked(old(View()), picos, victim, ReleaseCallback) else old(View()))
              && uploads == old(uploads) + if ok then Queued(old(View()), picos, victim) else multiset{}
      ensures hubStatus == StatusAfter(ok, old(hubStatus), old(|hot| + |warm|))
      ensures ok && old(|hot| + |warm|) > maxPico ==> LastStatus(messages) == Overloaded
      ensures messages == Told(old(messages), old(hubStatus), hubStatus)
    {
      hide Removable, Unmapped, StoppedAt, Told, LastStatus, Distinct;
      ok := true;
      var count, status := |hot| + |warm|, hubStatus;
      if count > maxPico {
        status := Overloaded;
        ok := Evict();
      } else if count < threshold {
        status := Available;
      }
      if ok {
        TellHub(status);
      } else {
        UntoldHub();
      }
    }

    /** The longest warm pico, or else the longest hot one, is taken out of the sets and released. */
    method Evict() returns (ok: bool)
      requires PicosOk() && SetsOk() && |hot| <= maxHot && maxPico < |hot| + |warm| <= maxPico + 1
      modifies this`hot, this`warm, this`mapping, this`uploads, all`status, all`callback
      ensures PicosOk() && SetsOk() && KeepsWoken() && (hot, warm) == Evicted(old(hot), old(warm), maxPico)
      ensures |hot| <= maxHot && |hot| + |warm| <= maxPico
      ensures var victim := VictimOf(old(hot), old(warm), maxPico).value;
              && victim in picos && (ok <==> Removable(old(mapping), picos[victim].ports))
              && (ok ==> mapping == Unmapped(old(mapping), picos[victim].ports))
              && (!ok ==> exists n :: StoppedAt(old(mapping), picos[victim].ports, n, mapping))
              && View() == (if ok then Asked(old(View()), picos, Some(victim), ReleaseCallback) else old(View()))
              && uploads == old(uploads) + if ok then Queued(old(View()), picos, Some(victim)) else multiset{}
    {
      hide Removable, Unmapped, StoppedAt;
      var i;
      if |warm| > 0 {
        i := warm[0];
        FirstGone(warm);
        warm := warm[1..];
      } else {
        i := hot[0];
        FirstGone(hot);
        hot := hot[1..];
      }
      ok := Release(i);
    }

    method TellHub(status: HubStatus)
      requires HubOk()
      modifies this`hubStatus, this`messages
      ensures HubOk() && hubStatus == status && messages == Told(old(messages), old(hubStatus), status)
    {
      if hubStatus != status {
        messages := Told(messages, hubStatus, status);
        hubStatus := status;
      }
    }

    lemma UntoldHub()
      ensures messages == Told(messages, hubStatus, hubStatus)
    {
    }

    /**
     * What making i hot does to the port mapping, the uploads and the picos: one pico may nap, and one may be
     * released, which fails exactly if its ports cannot be unmapped.
     */
    ghost predicate HotMoved(i: int, h: seq<int>, w: seq<int>, m: map<int, int>, u: multiset<int>, v: View, ok: bool,
        m': map<int, int>, u': multiset<int>, v': View)
      reads this`picos
    {
      var (h1, w1) := Rested(h, w, i, maxHot);
      var nap, victim := NapOf(h, i, maxHot), VictimOf(h1, w1, maxPico);
      var rested := Asked(v, picos, nap, NapCallback);
      && (ok <==> victim.None? || (victim.value in picos && Removable(m, picos[victim.value].ports)))
      && (victim.None? ==> m' == m)
      && (ok && victim.Some? ==> m' == Unmapped(m, picos[victim.value].ports))
      && (!ok ==> victim.Some? && victim.value in picos && exists n :: StoppedAt(m, picos[victim.value].ports, n, m'))
      && v' == (if ok then Asked(rested, picos, victim, ReleaseCallback) else rested)
      && u' == u + if ok then Queued(v, picos, victim) else multiset{}
    }

    /** make_hot: at most one nap and one release bring the sets back to their limits. */
    method MakeHot(i: int) returns (ok: bool)
      requires Valid() && i in picos
      modifies this`hot, this`warm, this`mapping, this`uploads, this`hubStatus, this`messages, all`status, all`callback
      ensures Valid() && KeepsWoken() && (hot, warm) == MadeHot(old(hot), old(warm), i, maxHot, maxPico)
      ensures HotMoved(i, old(hot), old(warm), old(mapping), old(uploads), old(View()), ok, mapping, uploads, View())
      ensures hubStatus == StatusAfter(ok, old(hubStatus), Residents(old(hot), old(warm), i))
      ensures messages == Told(old(messages), old(hubStatus), hubStatus)
    {
      hide Removable, Unmapped, StoppedAt, Told, LastStatus, NextStatus, Dropped, Asked, Queued, View, PicosOk, HubOk;
      DroppedLength(warm, i);
      warm := Dropped(warm, i);
      if i !in hot {
        DistinctSnoc(hot, i);
        hot := hot + [i];
      }
      ghost var v := View();
      ShouldNap();
      AskedQueued(v, picos, NapOf(old(hot), i, maxHot), NapCallback, VictimOf(hot, warm, maxPico));
      ok := UpdateHubStatus();
      RestedLength(old(hot), old(warm), i, maxHot);
    }

    /** With room in the sets only a nap happens. */
    lemma NapOnly(i: int, h: seq<int>, w: seq<int>, m: map<int, int>, u: multiset<int>, v: View, ok: bool)
      requires HotMoved(i, h, w, m, u, v, ok, mapping, uploads, View())
      requires var (h1, w1) := Rested(h, w, i, maxHot); VictimOf(h1, w1, maxPico) == None
      ensures ok && mapping == m && uploads == u && View() == Asked(v, picos, NapOf(h, i, maxHot), NapCallback)
    {
    }

    /** Without room a release follows. */
    lemma NapAndRelease(i: int, h: seq<int>, w: seq<int>, m: map<int, int>, u: multiset<int>, v: View, ok: bool, x: int)
      requires HotMoved(i, h, w, m, u, v, ok, mapping, uploads, View())
      requires var (h1, w1) := Rested(h, w, i, maxHot); VictimOf(h1, w1, maxPico) == Some(x)
      requires x in picos && Removable(m, picos[x].ports)
      ensures ok && mapping == Unmapped(m, picos[x].ports) && uploads == u + Queued(v, picos, Some(x))
      ensures View() == Asked(Asked(v, picos, NapOf(h, i, maxHot), NapCallback), picos, Some(x), ReleaseCallback)
    {
    }

    lemma SeenBoth(p: Pico, q: Pico)
      requires all == {p, q}
      ensures View() == map[p := (p.status, p.callback), q := (q.status, q.callback)]
    {
    }

    lemma NotHot(i: int)
      requires Valid() && i in picos && picos[i].status == Running && i !in hot
      ensures !RunningHot()
    {
    }

    lemma Seen(p: Pico)
      requires Valid() && p in all
      ensures p in View() && View()[p] == (p.status, p.callback)
      ensures p.monitor <==> p.status == Running || p.status == Checkpointing
      ensures p.Woken() ==> p.status == Checkpointing
      ensures p.id in picos && picos[p.id] == p ==> p.shouldAlive != Killed
    {
    }

    /** Every pico that runs, but i, is hot. */
    ghost predicate OtherRunningHot(i: int, h: seq<int>, v: View)
      reads this`picos
    {
      forall j <- picos.Keys :: picos[j] in v && v[picos[j]].0 == Running ==> j in h || j == i
    }

    /** A running pico stays hot, unless it is the last hot one and its release fails. */
    lemma StillHot(i: int, h: seq<int>, w: seq<int>, m: map<int, int>, u: multiset<int>, v: View, ok: bool)
      requires PicosOk() && OtherRunningHot(i, h, v) && (ok || maxHot <= maxPico) && |h| <= maxHot && v.Keys == all
      requires (hot, warm) == MadeHot(h, w, i, maxHot, maxPico)
      requires HotMoved(i, h, w, m, u, v, ok, mapping, uploads, View())
      ensures RunningHot()
    {
      hide Dropped, Removable, Unmapped, StoppedAt, Queued;
      var h' := if i in h then h else h + [i];
      forall j | j in picos.Keys && picos[j].status == Running
        ensures j in hot
      {
        assert View()[picos[j]].0 == Running && v[picos[j]].0 == Running;
        assert j in h' && NapOf(h, i, maxHot) != Some(j);
        NotFirst(h', j);
        NotFirst(Rested(h, w, i, maxHot).0, j);
      }
    }

    /** The table entry and the place in the sets go; a pending wake-up keeps the entry. */
    method LetGo(i: int)
      requires Valid()
      modifies this`picos, this`hot, this`warm
      ensures Valid() && hot == Dropped(old(hot), i) && warm == Dropped(old(warm), i)
      ensures picos == if i in old(picos) && !old(picos[i].Woken()) then old(picos) - {i} else old(picos)
      ensures old(RunningHot()) ==> RunningHot()
      ensures old(Tracked()) ==> (Tracked() <==> !(i in old(picos) && old(picos[i].monitor && !picos[i].Woken())))
    {
      Remove(i);
      ReleaseEntry(i);
    }

    // ----- the events

    /** pico_exec from the hub: a new pico starts; for a known one only its ports and its place are renewed. */
    method Exec(i: int, portmaps: seq<int>, resume: bool) returns (ok: bool)
      requires Valid()
      modifies this, all
      ensures Valid() && KeepsWoken() && i in picos && all == old(all) + {picos[i]}
      ensures i !in old(picos) ==>
                fresh(picos[i]) && picos[i].id == i && picos[i].ports == portmaps && picos == old(picos)[i := picos[i]]
                && picos[i].shouldAlive == Unset && picos[i].resume == resume
      ensures forall p <- old(all) :: p.shouldAlive == old(p.shouldAlive) && p.resume == old(p.resume)
      ensures i in old(picos) ==> picos == old(picos)
      ensures (hot, warm) == MadeHot(old(hot), old(warm), i, maxHot, maxPico)
      ensures var v := if i in old(picos) then old(View()) else old(View())[picos[i] := (Running, NoCallback)];
              var m := Mapped(old(mapping), picos[i].ports, i);
              HotMoved(i, old(hot), old(warm), m, old(uploads), v, ok, mapping, uploads, View())
      ensures hubStatus == StatusAfter(ok, old(hubStatus), Residents(old(hot), old(warm), i))
      ensures messages == Told(old(messages), old(hubStatus), hubStatus)
      ensures old(RunningHot()) && (ok || maxHot <= maxPico) ==> RunningHot()
      ensures old(Tracked()) ==> Tracked()
    {
      hide Removable, Unmapped, StoppedAt, Mapped, Told, LastStatus, NextStatus, Dropped, Asked, Queued, HotMoved, Residents;
      hide Tracked, RunningHot, PicosOk, SetsOk, OtherRunningHot, MadeHot;
      Start(i, portmaps, resume);
      AddMappings(i);
      ghost var m, v := mapping, View();
      ok := MakeHot(i);
      if old(RunningHot()) && (ok || maxHot <= maxPico) {
        StillHot(i, old(hot), old(warm), m, old(uploads), v, ok);
      }
    }

    /** PicoManager.execute: a new pico runs; a known one is left as it is. */
    method Start(i: int, portmaps: seq<int>, resume: bool)
      requires Valid()
      modifies this`picos, this`all
      ensures Valid() && KeepsWoken() && i in picos && all == old(all) + {picos[i]}
      ensures i !in old(picos) ==>
                fresh(picos[i]) && picos[i].id == i && picos[i].ports == portmaps && picos == old(picos)[i := picos[i]]
                && picos[i].shouldAlive == Unset && picos[i].resume == resume
      ensures forall p <- old(all) :: p.shouldAlive == old(p.shouldAlive) && p.resume == old(p.resume)
      ensures i in old(picos) ==> picos == old(picos) && all == old(all)
      ensures View() == if i in old(picos) then old(View()) else old(View())[picos[i] := (Running, NoCallback)]
      ensures old(RunningHot()) ==> OtherRunningHot(i, hot, View())
      ensures old(Tracked()) ==> Tracked()
    {
      hide HubOk, Distinct, SetsOk, RunningHot, Tracked, OtherRunningHot;
      if i !in picos {
        assert forall q <- all :: allocated(q);
        var p := new Pico(i, portmaps, resume);
        p.Execute();
        picos := picos[i := p];
        all := all + {p};
      }
      Grown(i);
    }

    /** A new pico leaves what holds of the others. */
    twostate lemma Grown(i: int)
      requires hot == old(hot) && warm == old(warm) && i in picos && picos[i].id == i && old(PicosOk())
      requires all == old(all) + {picos[i]} && picos == old(picos)[i := picos[i]]
      requires i in old(picos) ==> picos[i] == old(picos)[i]
      requires forall q <- old(all) :: q.status == old(q.status) && q.callback == old(q.callback)
                                    && q.monitor == old(q.monitor) && q.shouldAlive == old(q.shouldAlive)
      ensures old(SetsOk()) ==> SetsOk()
      ensures old(RunningHot()) ==> OtherRunningHot(i, hot, View())
      ensures old(Tracked()) ==> Tracked()
    {
    }

    /** pico_kill from the hub. */
    method Kill(i: int) returns (ok: bool)
      requires Valid()
      modifies this`mapping, this`picos, this`hot, this`warm, all`shouldAlive
      ensures Valid()
      ensures ok <==> i in old(picos) && Removable(old(mapping), old(picos)[i].ports)
      ensures ok ==> picos == old(picos) - {i} && hot == Dropped(old(hot), i) && warm == Dropped(old(warm), i)
      ensures ok ==> mapping == Unmapped(old(mapping), old(picos)[i].ports)
      ensures !ok ==> picos == old(picos) && hot == old(hot) && warm == old(warm)
      ensures !ok && i in picos ==> exists n :: StoppedAt(old(mapping), picos[i].ports, n, mapping)
      ensures !ok && i !in picos ==> mapping == old(mapping)
      ensures forall p <- all :: p.shouldAlive == if ok && p == old(picos)[i] then Killed else old(p.shouldAlive)
      ensures (old(RunningHot()) ==> RunningHot()) && (old(Tracked()) ==> Tracked())
    {
      hide HubOk, Dropped, Removable, Unmapped, Distinct;
      ok := RemoveMappings(i);
      if ok {
        var p := picos[i];
        p.shouldAlive := Killed;
        Remove(i);
        picos := picos - {i};
      }
    }

    /**
     * port_callback and pico_ensure_alive: traffic for a pico resumes it, or marks it when it is being checkpointed.
     * Traffic for no known pico changes nothing and fails, and traffic for pico 0 changes nothing.
     */
    method Wake(port: int) returns (ok: bool)
      requires Valid()
      modifies this`hot, this`warm, this`mapping, this`uploads, this`hubStatus, this`messages, all
      ensures Valid() && KeepsWoken()
      ensures var i := if port in old(mapping) then old(mapping)[port] else 0;
              if i == 0 || i !in picos then
                ok == (i == 0) && unchanged(this) && forall p <- all :: unchanged(p)
              else
                var p := picos[i];
                var v := if old(p.status) == Stopped then old(View())[p := (Running, old(p.callback))] else old(View());
                && (old(p.status) == Checkpointing ==> p.Woken())
                && (old(p.status) == Stopped ==> p.monitor)
                && (forall q <- all :: q.resume == (old(q.resume) || (q == p && old(q.status) == Stopped)))
                && (forall q <- all :: q.shouldAlive == if q == p then Wanted(old(q.status), old(q.shouldAlive)) else old(q.shouldAlive))
                && (hot, warm) == MadeHot(old(hot), old(warm), i, maxHot, maxPico)
                && HotMoved(i, old(hot), old(warm), old(mapping), old(uploads), v, ok, mapping, uploads, View())
                && hubStatus == StatusAfter(ok, old(hubStatus), Residents(old(hot), old(warm), i))
      ensures messages == Told(old(messages), old(hubStatus), hubStatus)
      ensures old(RunningHot()) && (ok || maxHot <= maxPico) ==> RunningHot()
      ensures old(Tracked()) ==> Tracked()
    {
      hide Removable, Unmapped, StoppedAt, Mapped, Told, LastStatus, NextStatus, Dropped, Asked, Queued, HotMoved, Residents;
      UntoldHub();
      if port !in mapping || mapping[port] == 0 {
        return true;
      }
      var i := mapping[port];
      if i !in picos {
        return false;
      }
      EnsureAlive(i);
      ghost var v := View();
      ok := MakeHot(i);
      if old(RunningHot()) && (ok || maxHot <= maxPico) {
        StillHot(i, old(hot), old(warm), old(mapping), old(uploads), v, ok);
      }
    }

    /** PicoManager.ensure_alive on a pico of the table. */
    method EnsureAlive(i: int)
      requires Valid() && i in picos
      modifies picos[i]
      ensures Valid() && KeepsWoken()
      ensures old(picos[i].status) == Checkpointing ==> picos[i].Woken()
      ensures old(picos[i].status) == Stopped ==> picos[i].monitor
      ensures picos[i].resume == (old(picos[i].resume) || old(picos[i].status) == Stopped)
      ensures picos[i].shouldAlive == Wanted(old(picos[i].status), old(picos[i].shouldAlive))
      ensures View() == if old(picos[i].status) != Stopped then old(View())
                        else old(View())[picos[i] := (Running, old(picos[i].callback))]
      ensures old(RunningHot()) ==> OtherRunningHot(i, hot, View())
      ensures old(Tracked()) ==> Tracked()
    {
      var p := picos[i];
      if p.status == Stopped {
        p.resume := true;
        p.Execute();
      } else if p.status == Checkpointing {
        p.shouldAlive := Alive;
      }
    }

    /** The monitor of a pico stops: after a checkpoint a pending wake-up resumes the pico, otherwise it leaves the worker. */
    method MonitorExit(p: Pico)
      requires Valid() && p in all && p.monitor
      modifies this`picos, this`hot, this`warm, this`uploads, p
      ensures Valid() && p.callback == old(p.callback) && p.resume == (old(p.resume) || old(p.Woken()))
      ensures p.shouldAlive == if old(p.Woken()) then Unset else old(p.shouldAlive)
      ensures old(p.Woken()) ==> p.status == Running && p.monitor
      ensures old(p.status) == Checkpointing && !old(p.Woken()) ==> p.status == Stopped
      ensures old(p.status) == Checkpointing ==> hot == old(hot) && warm == old(warm) && picos == old(picos)
      ensures old(p.status) == Running ==>
                && p.status == Exited && hot == Dropped(old(hot), p.id) && warm == Dropped(old(warm), p.id)
                && picos == if p.id in old(picos) && !old(picos[p.id].Woken()) then old(picos) - {p.id} else old(picos)
      ensures uploads == old(uploads) + if old(p.callback) == ReleaseCallback then multiset{p.id} else multiset{}
      // a pico that resumes without being hot, and only that, makes a running pico that is not hot
      ensures old(RunningHot()) ==>
                (RunningHot() <==> !(old(p.Woken()) && p.id in picos && picos[p.id] == p && p.id !in hot))
      // the exit of a killed pico, and only that, loses a pico that was started under the same id
      ensures old(Tracked()) ==>
                (Tracked() <==> !(old(p.status) == Running && p.id in old(picos) && old(picos[p.id]) != p
                                  && old(picos[p.id].monitor && !picos[p.id].Woken())))
    {
      hide Dropped, SetsOk, HubOk, RunningHot, Tracked;
      p.status := if p.status == Checkpointing then Stopped else Exited;
      p.monitor := false;
      if p.callback == ReleaseCallback {
        uploads := uploads + multiset{p.id};
      }
      if p.status == Stopped && p.shouldAlive == Alive {
        p.resume := true;
        p.Execute();
        ResumedHot(p);
      } else {
        HaltedHot(p);
        if p.status == Exited {
          LetGo(p.id);
        }
      }
    }

    /** A pico that resumes keeps the table; it breaks the hot limit exactly if it is not hot. */
    twostate lemma ResumedHot(p: Pico)
      requires PicosOk() && p in all && all == old(all) && picos == old(picos) && hot == old(hot)
      requires old(p.Woken() && p.monitor) && p.status == Running && p.monitor && p.shouldAlive == Unset
      requires forall q <- all :: q != p ==>
                 q.status == old(q.status) && q.monitor == old(q.monitor) && q.shouldAlive == old(q.shouldAlive)
      ensures old(RunningHot()) ==> (RunningHot() <==> !(p.id in picos && picos[p.id] == p && p.id !in hot))
      ensures old(Tracked()) ==> Tracked()
    {
    }

    twostate lemma HaltedHot(p: Pico)
      requires p in all && all == old(all) && picos == old(picos) && hot == old(hot) && p.status != Running && !p.monitor
      requires forall q <- all :: q != p ==>
                 q.status == old(q.status) && q.monitor == old(q.monitor) && q.shouldAlive == old(q.shouldAlive)
      ensures (old(RunningHot()) ==> RunningHot()) && (old(Tracked()) ==> Tracked())
    {
    }

    /** The upload of a released pico has finished: the hub is told that it is released, even when a wake-up keeps it. */
    method UploadDone(i: int)
      requires Valid() && i in uploads
      modifies this`picos, this`hot, this`warm, this`uploads, this`messages
      ensures Valid() && uploads == old(uploads) - multiset{i} && messages == old(messages) + [Released(i)]
      ensures hot == Dropped(old(hot), i) && warm == Dropped(old(warm), i)
      ensures picos == if i in old(picos) && !old(picos[i].Woken()) then old(picos) - {i} else old(picos)
      ensures old(RunningHot()) ==> RunningHot()
      // a pico with a monitor is lost exactly if it is no longer waiting for its wake-up
      ensures old(Tracked()) ==> (Tracked() <==> !(i in old(picos) && old(picos[i].monitor && !picos[i].Woken())))
    {
      hide Dropped, RunningHot, Tracked, PicosOk, SetsOk, LastStatus;
      uploads := uploads - multiset{i};
      ReleasedStatus(messages, i);
      messages := messages + [Released(i)];
      LetGo(i);
    }
  }

  /** The ports can be unmapped one after the other. */
  ghost predicate Removable(m: map<int, int>, ports: seq<int>) {
    Distinct(ports) && forall q <- ports :: q in m
  }

  /** The first n ports have been unmapped, and the next one cannot be. */
  ghost predicate StoppedAt(m: map<int, int>, ports: seq<int>, n: nat, left: map<int, int>) {
    && n < |ports| && Removable(m, ports[..n]) && !Removable(m, ports[..n + 1])
    && left == Unmapped(m, ports[..n])
  }

  function Mapped(m: map<int, int>, ports: seq<int>, i: int): map<int, int> {
    map q | q in m.Keys + (set x | x in ports) :: if q in ports then i else m[q]
  }

  /** Where traffic is led after a pico has been given its ports, and after they have been taken away again. */
  lemma Routes(m: map<int, int>, ports: seq<int>, i: int, q: int)
    ensures q in Mapped(m, ports, i) <==> q in ports || q in m
    ensures q in ports ==> Mapped(m, ports, i)[q] == i
    ensures q !in ports && q in m ==> Mapped(m, ports, i)[q] == m[q]
    ensures Unmapped(Mapped(m, ports, i), ports) == Unmapped(m, ports)
    ensures Unmapped(m, ports) + (map p | p in m && p in ports :: m[p]) == m
    ensures Distinct(ports) ==> Removable(Mapped(m, ports, i), ports)
  {
  }

  lemma {:induction false} SetSize(s: seq<int>)
    requires Distinct(s)
    ensures |set i | i in s| == |s|
    decreases |s|
  {
    if s != [] {
      var n := |s| - 1;
      SetSize(s[..n]);
      assert s[n] !in s[..n];
      assert (set i | i in s) == (set i | i in s[..n]) + {s[n]};
    }
  }

  lemma SubsetSize(a: set<int>, b: set<int>)
    requires a <= b
    ensures |a| <= |b|
  {
    assert b == a + (b - a);
  }

  lemma NotFirst(s: seq<int>, x: int)
    ensures s != [] && x in s && x != s[0] ==> x in s[1..]
  {
  }

  lemma FirstGone(s: seq<int>)
    requires s != [] && Distinct(s)
    ensures Distinct(s[1..]) && s[0] !in s[1..] && forall x :: x in s[1..] ==> x in s
  {
  }

  // ----- runs

  lemma AskedOne(v: View, table: map<int, Pico>, i: int, cb: Callback)
    requires i in table && table[i] in v
    ensures var s := v[table[i]].0;
            Asked(v, table, Some(i), cb) == v[table[i] := (if s == Running then Checkpointing else s, cb)]
    ensures Asked(v, table, None, cb) == v
    ensures Queued(v, table, Some(i)) == if v[table[i]].0 == Stopped then multiset{i} else multiset{}
  {
  }

  /** Two picos, of which one at a time is hot, change places. */
  lemma Swap(a: int, b: int, maxPico: nat)
    requires a != b && maxPico >= 2
    ensures MadeHot([a], [], b, 1, maxPico) == ([b], [a]) && MadeHot([a], [b], b, 1, maxPico) == ([b], [a])
    ensures NapOf([a], b, 1) == Some(a)
    ensures var (h, w) := Rested([a], [], b, 1); VictimOf(h, w, maxPico) == None
    ensures var (h, w) := Rested([a], [b], b, 1); VictimOf(h, w, maxPico) == None
  {
    assert Dropped([b], b) == [];
    assert [a] + [b] == [a, b] && [a, b][1..] == [b];
    assert [] + [a] == [a];
  }

  lemma FirstIn(a: int, maxPico: nat)
    requires maxPico >= 1
    ensures MadeHot([], [], a, 1, maxPico) == ([a], []) && NapOf([], a, 1) == None
    ensures var (h, w) := Rested([], [], a, 1); VictimOf(h, w, maxPico) == None
  {
    assert [] + [a] == [a];
  }

  lemma MappedOne(m: map<int, int>, q: int, i: int)
    ensures Mapped(m, [q], i) == m[q := i]
  {
  }

  /** A first pico is started. */
  method StartOne(maxPico: nat) returns (w: Worker, p: Pico)
    requires maxPico >= 1
    ensures fresh(w) && fresh(p) && w.all == {p} && w.Valid() && w.Tracked()
    ensures w.RunningHot() && w.maxHot == 1 && w.maxPico == maxPico
    ensures w.picos == map[1 := p] && w.hot == [1] && w.warm == [] && w.mapping == map[10 := 1] && w.uploads == multiset{}
    ensures w.View() == map[p := (Running, NoCallback)] && p.id == 1
    ensures p.ports == [10] && p.monitor && p.shouldAlive == Unset
  {
    hide *;
    w := new Worker(1, maxPico, 0);
    FirstIn(1, maxPico);
    MappedOne(map[], 10, 1);
    var ok := w.Exec(1, [10], false);
    p := w.picos[1];
    w.NapOnly(1, [], [], map[10 := 1], multiset{}, map[p := (Running, NoCallback)], ok);
    AskedOne(map[p := (Running, NoCallback)], w.picos, 1, NapCallback);
    w.Seen(p);
  }

  /** A second pico takes the hot place of the first. */
  method StartTwo() returns (w: Worker, p1: Pico, p2: Pico)
    ensures fresh(w) && fresh(p1) && fresh(p2) && w.all == {p1, p2} && p1 != p2
    ensures w.Valid() && w.RunningHot() && w.maxHot == 1 && w.maxPico == 2 && w.picos == map[1 := p1, 2 := p2]
    ensures w.hot == [2] && w.warm == [1] && w.mapping == map[10 := 1, 20 := 2]
    ensures w.View() == map[p1 := (Checkpointing, NapCallback), p2 := (Running, NoCallback)]
  {
    hide *;
    w, p1 := StartOne(2);
    Swap(1, 2, 2);
    MappedOne(w.mapping, 20, 2);
    var ok := w.Exec(2, [20], false);
    p2 := w.picos[2];
    ghost var v := map[p1 := (Running, NoCallback), p2 := (Running, NoCallback)];
    w.NapOnly(2, [1], [], map[10 := 1, 20 := 2], multiset{}, v, ok);
    AskedOne(v, w.picos, 1, NapCallback);
  }

  /** The two picos are woken in their checkpoints, each of which sends the other one to a nap. */
  method WokenInTurn() returns (w: Worker, p1: Pico, p2: Pico)
    ensures w.Valid() && w.maxHot == 1 && w.picos == map[1 := p1, 2 := p2] && w.hot == [2] && w.all == {p1, p2}
    ensures fresh(w) && fresh(p1) && fresh(p2) && p1 != p2 && p1.Woken() && p2.Woken() && p1.monitor && p2.monitor
  {
    hide Dropped, Asked, Rested, Napped, Evicted, MadeHot, NapOf, VictimOf, Mapped, Told, Resting;
    hide Worker.HotMoved, Worker.View, Worker.Valid, Worker.RunningHot, Wanted;
    w, p1, p2 := StartTwo();
    ghost var v, m, u := w.View(), w.mapping, w.uploads;
    Swap(2, 1, 2);
    Swap(1, 2, 2);
    w.Seen(p1);
    var ok := w.Wake(10);
    w.NapOnly(1, [2], [1], m, u, v, ok);
    AskedOne(v, w.picos, 2, NapCallback);
    w.Seen(p2);
    v := w.View();
    ok := w.Wake(20);
    w.NapOnly(2, [1], [2], m, u, v, ok);
    AskedOne(v, w.picos, 1, NapCallback);
    w.Seen(p1);
    w.Seen(p2);
  }

  /** Two picos that are woken in their checkpoints and napped in turn both run in the end, although one may be hot. */
  method Overcommitted() returns (w: Worker, p1: Pico, p2: Pico)
    ensures w.Valid() && w.maxHot == 1 && w.picos == map[1 := p1, 2 := p2] && !w.RunningHot()
    ensures p1 != p2 && p1.status == Running && p2.status == Running
  {
    hide Dropped, Worker.Valid, Worker.RunningHot;
    w, p1, p2 := WokenInTurn();
    w.MonitorExit(p1);
    w.MonitorExit(p2);
    w.NotHot(1);
  }

  /** A pico that is started under the id of a killed one is lost when the killed one's monitor exits. */
  method LostAtExit() returns (w: Worker, p: Pico)
    ensures w.Valid() && p in w.all && p.status == Running && p.shouldAlive != Killed
    ensures w.picos == map[] && w.hot == [] && !w.Tracked()
  {
    hide *;
    var q;
    w, q := StartOne(2);
    w.Seen(q);
    ghost var v := w.View();
    OnlyOne();
    var ok := w.Kill(1);
    FirstIn(1, 2);
    MappedOne(map[], 10, 1);
    ok := w.Exec(1, [10], false);
    p := w.picos[1];
    v := v[p := (Running, NoCallback)];
    w.NapOnly(1, [], [], map[10 := 1], multiset{}, v, ok);
    AskedOne(v, w.picos, 1, NapCallback);
    w.Seen(p);
    w.Seen(q);
    w.MonitorExit(q);
  }

  lemma OnlyOne()
    ensures Removable(map[10 := 1], [10]) && Unmapped(map[10 := 1], [10]) == map[]
    ensures Dropped([1], 1) == [] && Dropped([], 1) == []
  {
  }

  /** With room for one pico, the one that naps is released. */
  lemma Replace(a: int, b: int)
    requires a != b
    ensures MadeHot([a], [], b, 1, 1) == ([b], []) && NapOf([a], b, 1) == Some(a)
    ensures var (h, w) := Rested([a], [], b, 1); VictimOf(h, w, 1) == Some(a)
    ensures MadeHot([b], [], b, 1, 1) == ([b], []) && NapOf([b], b, 1) == None
    ensures var (h, w) := Rested([b], [], b, 1); VictimOf(h, w, 1) == None
  {
    assert [a] + [b] == [a, b] && [a, b][1..] == [b];
    assert [] + [a] == [a] && [a][1..] == [];
  }

  /** Two picos lead to two ports; one of them is unmapped. */
  lemma TwoPorts(q: int, i: int, q': int, i': int)
    requires q != q'
    ensures Removable(map[q := i, q' := i'], [q]) && Unmapped(map[q := i, q' := i'], [q]) == map[q' := i']
  {
  }

  /** A second pico replaces the first, whose upload starts when its checkpoint is done. */
  method Replaced() returns (w: Worker, p1: Pico, p2: Pico)
    ensures fresh(w) && fresh(p1) && fresh(p2) && w.all == {p1, p2} && p1 != p2
    ensures w.Valid() && w.Tracked() && w.maxHot == 1 && w.maxPico == 1 && w.picos == map[1 := p1, 2 := p2]
    ensures w.hot == [2] && w.warm == [] && w.mapping == map[20 := 2] && p1.ports == [10] && p2.ports == [20]
    ensures w.View() == map[p1 := (Checkpointing, ReleaseCallback), p2 := (Running, NoCallback)]
    ensures p1.shouldAlive == Unset && p1.id == 1
    ensures w.uploads == multiset{}
  {
    hide *;
    w, p1 := StartOne(1);
    Replace(1, 2);
    MappedOne(w.mapping, 20, 2);
    TwoPorts(10, 1, 20, 2);
    w.Seen(p1);
    var ok := w.Exec(2, [20], false);
    p2 := w.picos[2];
    ghost var v := map[p1 := (Running, NoCallback), p2 := (Running, NoCallback)];
    w.NapAndRelease(2, [1], [], map[10 := 1, 20 := 2], multiset{}, v, ok, 1);
    AskedOne(v, w.picos, 1, NapCallback);
    AskedOne(v[p1 := (Checkpointing, NapCallback)], w.picos, 1, ReleaseCallback);
  }

  /** The released pico is started again while its upload runs. */
  method Restarted() returns (w: Worker, p1: Pico, p2: Pico)
    ensures fresh(w) && fresh(p1) && fresh(p2) && w.all == {p1, p2} && p1 != p2
    ensures w.Valid() && w.Tracked() && w.maxHot == 1 && w.maxPico == 1 && w.picos == map[1 := p1, 2 := p2]
    ensures w.hot == [1] && w.warm == [] && w.mapping == map[10 := 1] && w.uploads == multiset{1}
    ensures w.View() == map[p1 := (Stopped, ReleaseCallback), p2 := (Checkpointing, ReleaseCallback)]
    ensures p1.status == Stopped && p1.callback == ReleaseCallback && p1.id == 1
  {
    hide *;
    w, p1, p2 := Replaced();
    w.Seen(p1);
    w.Seen(p2);
    p1.NotWoken();
    w.MonitorExit(p1);
    w.SeenBoth(p1, p2);
    ghost var v := map[p1 := (Stopped, ReleaseCallback), p2 := (Running, NoCallback)];
    Replace(2, 1);
    MappedOne(w.mapping, 10, 1);
    TwoPorts(20, 2, 10, 1);
    assert w.mapping[10 := 1] == map[20 := 2, 10 := 1];
    assert w.uploads == multiset{1};
    assert w.View() == v;
    var ok := w.Exec(1, [10], true);
    w.NapAndRelease(1, [2], [], map[20 := 2, 10 := 1], multiset{1}, v, ok, 2);
    AskedOne(v, w.picos, 2, NapCallback);
    AskedOne(v[p2 := (Checkpointing, NapCallback)], w.picos, 2, ReleaseCallback);
    w.Seen(p1);
  }

  /** A released pico that runs again before its upload has finished is lost when it finishes. */
  method LostAtUpload() returns (w: Worker, p: Pico)
    ensures w.Valid() && p in w.all && p.id == 1 && p.status == Running && p.shouldAlive != Killed
    ensures 1 !in w.picos && 1 !in w.hot && !w.Tracked() && Released(1) in w.messages
  {
    hide *;
    var p2;
    w, p, p2 := Restarted();
    Replace(2, 1);
    ghost var v := w.View()[p := (Running, ReleaseCallback)];
    var ok := w.Wake(10);
    w.NapOnly(1, [1], [], map[10 := 1], multiset{1}, v, ok);
    AskedOne(v, w.picos, 1, NapCallback);
    w.Seen(p);
    w.UploadDone(1);
    OnlyOne();
  }
}
