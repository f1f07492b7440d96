/** The atomic reference count as a step system over any number of threads.
  *
  * A run is a sequence of events, one per atomic action, in the order in which the
  * counter's modifications take effect. Happens-before is not part of the machine: it is
  * defined on the finished run, from program order and the memory orders of the events,
  * after sections 5.1.2.4 and 7.17.4 of ISO/IEC 9899:2011.
  */
module RefCount {

  type Tid = nat
  type Ref = nat

  datatype Event =
    | Work(t: Tid)                      // anything that does not touch the object
    | Access(t: Tid)                    // a plain access to the counted object
    | UpRef(t: Tid, ref: Ref)           // the increment of CRYPTO_UP_REF, minting a reference
    | Send(t: Tid, ref: Ref, to: Tid)   // hand a held reference over, with synchronization
    | DownRef(t: Tid, ref: Ref)         // the decrement of CRYPTO_DOWN_REF, giving one up
    | Fence(t: Tid)                     // the fence of CRYPTO_DOWN_REF
    | Free(t: Tid)                      // what the caller does on a zero count
  {
    /** The actions on the counter. */
    predicate OnCounter() {
      UpRef? || DownRef?
    }

    predicate NeedsReference() {
      Access? || UpRef? || Send? || DownRef?
    }
  }

  type Run = seq<Event>

  // ---- the machine ----

  const INT_MAX := 0x7fff_ffff
  const INT_MIN := -0x8000_0000
  const WRAP := 0x1_0000_0000

  /** The value an `_Atomic int` holds after an operation whose exact result is v. */
  function WrapInt(v: int): (r: int)
    ensures INT_MIN <= r <= INT_MAX
    ensures INT_MIN <= v <= INT_MAX ==> r == v
  {
    (v - INT_MIN) % WRAP + INT_MIN
  }

  /** The counter, who holds which reference, which threads owe a fence and which may free. */
  datatype State = State(val: int, held: map<Ref, Tid>, fencing: set<Tid>, freeing: set<Tid>)

  const ROOT_REF: Ref := 0
  const INITIAL := State(1, map[ROOT_REF := 0], {}, {})

  ghost predicate Holds(s: State, t: Tid) {
    exists r :: r in s.held && s.held[r] == t
  }

  ghost predicate Enabled(s: State, e: Event) {
    && (e.Fence? <==> e.t in s.fencing)
    && match e
       case Work(_) => true
       case Access(t) => Holds(s, t)
       case UpRef(t, r) => Holds(s, t) && r !in s.held
       case Send(t, r, _) => r in s.held && s.held[r] == t
       case DownRef(t, r) => r in s.held && s.held[r] == t
       case Fence(_) => true
       case Free(t) => t in s.freeing
  }

  function Next(s: State, e: Event): State {
    match e
    case Work(_) | Access(_) => s
    case UpRef(t, r) => s.(val := WrapInt(s.val + 1), held := s.held[r := t])
    case Send(_, r, u) => s.(held := s.held[r := u])
    case DownRef(t, r) =>
      s.(val := WrapInt(s.val - 1), held := s.held - {r},
         fencing := if WrapInt(s.val - 1) == 0 then s.fencing + {t} else s.fencing)
    case Fence(t) => s.(fencing := s.fencing - {t}, freeing := s.freeing + {t})
    case Free(t) => s.(freeing := s.freeing - {t})
  }

  /** The state after the first n events. */
  ghost function After(run: Run, n: nat): State
    requires n <= |run|
  {
    if n == 0 then INITIAL else Next(After(run, n - 1), run[n - 1])
  }

  ghost predicate ValidAt(run: Run, n: nat)
    requires n < |run|
  {
    Enabled(After(run, n), run[n])
  }

  ghost predicate Valid(run: Run) {
    forall n | 0 <= n < |run| :: ValidAt(run, n)
  }

  /** No more than b references are outstanding. */
  ghost predicate WithinAt(run: Run, n: nat, b: nat)
    requires n <= |run|
  {
    |After(run, n).held| <= b
  }

  ghost predicate Within(run: Run, b: nat) {
    forall n | 0 <= n <= |run| :: WithinAt(run, n, b)
  }

  lemma WithinMore(run: Run, b: nat, c: nat)
    requires Within(run, b) && b <= c
    ensures Within(run, c)
  {
    forall n | 0 <= n <= |run|
      ensures WithinAt(run, n, c)
    {
      assert WithinAt(run, n, b);
    }
  }

  // ---- the counter ----

  lemma WrapStep(v: int)
    ensures WrapInt(WrapInt(v) + 1) == WrapInt(v + 1)
    ensures WrapInt(WrapInt(v) - 1) == WrapInt(v - 1)
  {
  }

  lemma HeldCount(s: State, e: Event)
    requires Enabled(s, e)
    ensures |Next(s, e).held| == |s.held| + if e.UpRef? then 1 else if e.DownRef? then -1 else 0
  {
    if e.DownRef? {
      assert (s.held - {e.ref}).Keys == s.held.Keys - {e.ref};
    } else if e.Send? {
      assert s.held[e.ref := e.to].Keys == s.held.Keys;
    }
  }

  lemma {:induction false} CounterWraps(run: Run, n: nat)
    requires Valid(run) && n <= |run|
    ensures After(run, n).val == WrapInt(|After(run, n).held|)
  {
    if n == 0 {
      assert |INITIAL.held| == 1;
    } else {
      CounterWraps(run, n - 1);
      assert ValidAt(run, n - 1);
      CounterStep(After(run, n - 1), run[n - 1]);
    }
  }

  lemma CounterStep(s: State, e: Event)
    requires Enabled(s, e) && s.val == WrapInt(|s.held|)
    ensures Next(s, e).val == WrapInt(|Next(s, e).held|)
  {
    HeldCount(s, e);
    WrapStep(|s.held|);
  }

  ghost predicate CountsAt(run: Run, n: nat)
    requires n <= |run|
  {
    After(run, n).val == |After(run, n).held|
  }

  /** The counter is the number of outstanding references throughout a run exactly when
    * that number stays within `int`. */
  lemma CounterCountsIff(run: Run)
    requires Valid(run)
    ensures Within(run, 0x7fff_ffff) <==> forall n | 0 <= n <= |run| :: CountsAt(run, n)
  {
    forall n | 0 <= n <= |run|
      ensures WithinAt(run, n, INT_MAX) <==> CountsAt(run, n)
    {
      CounterWraps(run, n);
    }
  }

  /** Once no reference is left, none comes back: the counter is never touched again. */
  lemma {:induction false} QuietAfterZero(run: Run, m: nat, n: nat)
    requires Valid(run) && m <= n <= |run| && After(run, m).held == map[]
    ensures After(run, n).held == map[]
    ensures forall k | m <= k < n :: !run[k].NeedsReference()
  {
    if m == n {
    } else {
      QuietAfterZero(run, m, n - 1);
      assert ValidAt(run, n - 1);
    }
  }

  /** The event at d is a DOWN_REF that returned zero. */
  ghost predicate ReachedZero(run: Run, d: nat)
  {
    d < |run| && run[d].DownRef? && After(run, d + 1).val == 0
  }

  lemma WrapZero(v: nat)
    requires v < WRAP
    ensures WrapInt(v) == 0 <==> v == 0
  {
  }

  lemma DownRefCount(run: Run, d: nat)
    requires Valid(run) && d < |run| && run[d].DownRef?
    ensures |After(run, d + 1).held| == |After(run, d).held| - 1
    ensures After(run, d + 1).val == WrapInt(|After(run, d).held| - 1)
  {
    assert ValidAt(run, d);
    HeldCount(After(run, d), run[d]);
    CounterWraps(run, d + 1);
  }

  /** Up to 2^32 references, a decrement returns zero exactly when it gives up the last one. */
  lemma ZeroIffLast(run: Run, d: nat)
    requires Valid(run) && Within(run, WRAP) && d < |run| && run[d].DownRef?
    ensures ReachedZero(run, d) <==> After(run, d + 1).held == map[]
  {
    DownRefCount(run, d);
    assert WithinAt(run, d, WRAP);
    WrapZero(|After(run, d + 1).held|);
    assert |After(run, d + 1).held| == 0 <==> After(run, d + 1).held == map[];
  }

  lemma ZeroIsFinal(run: Run, d: nat)
    requires Valid(run) && Within(run, WRAP) && ReachedZero(run, d)
    ensures forall k | d < k < |run| :: !run[k].NeedsReference()
  {
    ZeroIffLast(run, d);
    QuietAfterZero(run, d + 1, |run|);
  }

  /** A DOWN_REF returns zero exactly when it gives up the last reference; no operation on
    * the counter follows it, so no other DOWN_REF returns zero. */
  lemma LastReference(run: Run, d: nat)
    requires Valid(run) && Within(run, WRAP) && d < |run| && run[d].DownRef?
    ensures ReachedZero(run, d) <==> After(run, d + 1).held == map[]
    ensures ReachedZero(run, d) ==> forall k | d < k < |run| :: !run[k].NeedsReference()
    ensures ReachedZero(run, d) ==> forall c | ReachedZero(run, c) :: c == d
  {
    ZeroIffLast(run, d);
    if ReachedZero(run, d) {
      ZeroIsFinal(run, d);
      forall c: nat | ReachedZero(run, c)
        ensures c == d
      {
        ZeroIsFinal(run, c);
        assert run[c].NeedsReference() && run[d].NeedsReference();
      }
    }
  }

  lemma {:induction false} DroppedAll(run: Run, n: nat) returns (d: nat)
    requires Valid(run) && 0 < n <= |run| && After(run, n).held == map[]
    ensures d < n && run[d].DownRef? && After(run, d + 1).held == map[] && After(run, d).held != map[]
  {
    var s, e := After(run, n - 1), run[n - 1];
    assert ValidAt(run, n - 1);
    if s.held == map[] {
      assert n - 1 > 0 by { assert ROOT_REF in INITIAL.held; }
      d := DroppedAll(run, n - 1);
    } else {
      d := n - 1;
    }
  }

  /** A run that drops every reference has a DOWN_REF that returns zero, however many
    * references it held. */
  lemma AllDroppedReachesZero(run: Run)
    requires Valid(run) && After(run, |run|).held == map[]
    ensures exists d :: ReachedZero(run, d)
  {
    assert |run| > 0 by { assert ROOT_REF in INITIAL.held; }
    var d := DroppedAll(run, |run|);
    DownRefCount(run, d);
    assert ReachedZero(run, d);
  }

  // ---- happens-before ----

  /** How strong the three atomic actions are; `true` is the stronger choice. An increment
    * that is not a read-modify-write is a load and a store, here with nothing in between:
    * even then it is not enough. */
  datatype Orders = Orders(upReleases: bool, upIsRmw: bool, downReleases: bool, fenceAcquires: bool)

  /** What the source uses: a relaxed atomic addition, a release subtraction, an acquire fence. */
  const SOURCE_ORDERS := Orders(false, true, true, true)

  ghost predicate Releases(o: Orders, e: Event) {
    (e.UpRef? && o.upReleases) || (e.DownRef? && o.downReleases)
  }

  ghost predicate IsRmw(o: Orders, e: Event) {
    (e.UpRef? && o.upIsRmw) || e.DownRef?
  }

  /** Position k lies in the release sequence headed by h: every modification of the
    * counter after h up to k is a read-modify-write or by h's thread. */
  ghost predicate InReleaseSequence(o: Orders, run: Run, h: nat, k: nat)
    requires h <= k < |run|
  {
    forall m | h < m <= k && run[m].OnCounter() :: IsRmw(o, run[m]) || run[m].t == run[h].t
  }

  /** The modification that the operation at k reads: the last one before it. A separate load
    * could read an older one, which synchronizes with no more than this. */
  ghost predicate ReadsFrom(run: Run, w: nat, k: nat)
    requires w < k < |run|
  {
    run[w].OnCounter() && forall m | w < m < k :: !run[m].OnCounter()
  }

  /** Section 7.17.4: a release operation i synchronizes with an acquire fence j when some
    * atomic operation k sequenced before j reads from the release sequence headed by i. */
  ghost predicate SynchronizesWith(o: Orders, run: Run, i: nat, j: nat)
    requires i < j < |run|
  {
    && Releases(o, run[i])
    && run[j].Fence? && o.fenceAcquires
    && exists k, w | i <= w < k < j ::
         run[k].OnCounter() && run[k].t == run[j].t && ReadsFrom(run, w, k) && InReleaseSequence(o, run, i, w)
  }

  /** One link of happens-before: program order, a hand-over, or a fence. */
  ghost predicate Link(o: Orders, run: Run, i: nat, j: nat)
    requires i < j < |run|
  {
    || run[i].t == run[j].t
    || (run[i].Send? && run[i].to == run[j].t)
    || SynchronizesWith(o, run, i, j)
  }

  ghost predicate HappensBefore(o: Orders, run: Run, i: nat, j: nat)
    requires i < j < |run|
  {
    Link(o, run, i, j) || exists k | i < k < j :: HappensBefore(o, run, i, k) && Link(o, run, k, j)
  }

  /** Event i is event j or happens before it. */
  ghost predicate UpTo(o: Orders, run: Run, i: nat, j: nat)
    requires i <= j < |run|
  {
    i == j || HappensBefore(o, run, i, j)
  }

  lemma Extend(o: Orders, run: Run, i: nat, k: nat, j: nat)
    requires i <= k < j < |run| && UpTo(o, run, i, k) && Link(o, run, k, j)
    ensures HappensBefore(o, run, i, j)
  {
  }

  // ---- the safety argument ----

  /** Some event among the first n puts i before whatever thread t does next. */
  ghost predicate Known(o: Orders, run: Run, n: nat, i: nat, t: Tid)
    requires n <= |run|
  {
    exists j | i <= j < n :: UpTo(o, run, i, j) && Tells(run[j], t)
  }

  /** What event e comes after, thread t's next event comes after too. */
  ghost predicate Tells(e: Event, t: Tid) {
    e.t == t || (e.Send? && e.to == t)
  }

  /** Some DOWN_REF among the first n comes after i. */
  ghost predicate Published(o: Orders, run: Run, n: nat, i: nat)
    requires n <= |run|
  {
    exists d | i <= d < n :: run[d].DownRef? && UpTo(o, run, i, d)
  }

  /** Every access is known to the holder of some live reference, until it is published:
    * a reference that is given up takes with it what its holder knew. */
  lemma {:induction false} KnownOrPublished(o: Orders, run: Run, n: nat, i: nat) returns (r: Ref)
    requires Valid(run) && i < n <= |run| && run[i].Access?
    ensures Published(o, run, n, i) || (r in After(run, n).held && Known(o, run, n, i, After(run, n).held[r]))
  {
    var s, e := After(run, n - 1), run[n - 1];
    assert ValidAt(run, n - 1);
    if i == n - 1 {
      r :| r in s.held && s.held[r] == e.t;
      assert UpTo(o, run, i, i);
    } else {
      r := KnownOrPublished(o, run, n - 1, i);
      if !Published(o, run, n - 1, i) {
        StillKnown(o, run, n, i, r);
      }
    }
  }

  lemma StillKnown(o: Orders, run: Run, n: nat, i: nat, r: Ref)
    requires Valid(run) && i + 1 < n <= |run|
    requires r in After(run, n - 1).held && Known(o, run, n - 1, i, After(run, n - 1).held[r])
    ensures Published(o, run, n, i) || (r in After(run, n).held && Known(o, run, n, i, After(run, n).held[r]))
  {
    var s, e, t := After(run, n - 1), run[n - 1], After(run, n - 1).held[r];
    assert ValidAt(run, n - 1);
    var j :| i <= j < n - 1 && UpTo(o, run, i, j) && Tells(run[j], t);
    if (e.DownRef? || e.Send?) && e.ref == r {
      Extend(o, run, i, j, n - 1);
      assert UpTo(o, run, i, n - 1);
      assert e.Send? ==> Next(s, e).held[r] == e.to && Tells(e, e.to);
    } else {
      assert r in Next(s, e).held && Next(s, e).held[r] == t;
    }
  }

  /** A thread that owes a fence, or may free, got there by a DOWN_REF that returned zero. */
  lemma {:induction false} FenceOwed(run: Run, n: nat, t: Tid) returns (d: nat)
    requires n <= |run| && t in After(run, n).fencing
    ensures d < n && run[d].t == t && ReachedZero(run, d)
  {
    var e := run[n - 1];
    if t in After(run, n - 1).fencing {
      d := FenceOwed(run, n - 1, t);
    } else {
      d := n - 1;
    }
  }

  lemma {:induction false} FreeAllowed(run: Run, n: nat, t: Tid) returns (d: nat, g: nat)
    requires Valid(run) && n <= |run| && t in After(run, n).freeing
    ensures d < g < n && run[d].t == t && ReachedZero(run, d) && run[g] == Fence(t)
  {
    var e := run[n - 1];
    assert ValidAt(run, n - 1);
    if t in After(run, n - 1).freeing {
      d, g := FreeAllowed(run, n - 1, t);
    } else {
      g := n - 1;
      d := FenceOwed(run, g, t);
    }
  }

  /** Strong enough for a zero count to order everything: see `SafeIff`. */
  ghost predicate Sufficient(o: Orders) {
    o.upIsRmw && o.downReleases && o.fenceAcquires
  }

  /** The fence after the DOWN_REF at z synchronizes with every earlier DOWN_REF: the
    * modifications in between are read-modify-writes and so continue the release sequence,
    * relaxed increments included. */
  lemma FenceCollects(o: Orders, run: Run, d: nat, z: nat, g: nat)
    requires Sufficient(o)
    requires d <= z < g < |run| && run[d].DownRef? && run[z].DownRef? && run[g] == Fence(run[z].t)
    ensures Link(o, run, d, g)
  {
    if d < z {
      var w := LastModification(run, d, z);
      assert ReadsFrom(run, w, z) && InReleaseSequence(o, run, d, w);
    }
  }

  lemma {:induction false} LastModification(run: Run, d: nat, z: nat) returns (w: nat)
    requires d < z < |run| && run[d].OnCounter()
    ensures d <= w < z && ReadsFrom(run, w, z)
  {
    w := z - 1;
    while !run[w].OnCounter()
      decreases w
      invariant d <= w < z
      invariant forall m | w < m < z :: !run[m].OnCounter()
    {
      w := w - 1;
    }
  }

  /** Everything a thread did before its own DOWN_REF happens before the fence of the
    * DOWN_REF that returns zero. */
  lemma WorkBeforeDownRefIsCollected(o: Orders, run: Run, i: nat, d: nat, z: nat, g: nat)
    requires Valid(run) && Within(run, WRAP) && Sufficient(o)
    requires i < d < |run| && run[d].DownRef? && run[i].t == run[d].t
    requires ReachedZero(run, z) && z < g < |run| && run[g] == Fence(run[z].t)
    ensures i < g && HappensBefore(o, run, i, g)
  {
    LastReference(run, z);
    assert run[d].NeedsReference();
    FenceCollects(o, run, d, z, g);
    Extend(o, run, i, i, d);
    Extend(o, run, i, d, g);
  }

  /** Every access to the object happens before every free of it, and precedes it in the run. */
  lemma AccessBeforeFree(o: Orders, run: Run, i: nat, f: nat)
    requires Valid(run) && Within(run, WRAP) && Sufficient(o)
    requires i < |run| && run[i].Access? && f < |run| && run[f].Free?
    ensures i < f && HappensBefore(o, run, i, f)
  {
    var d, z, g := AccessIsPublished(o, run, i, f);
    FenceCollects(o, run, d, z, g);
    Extend(o, run, i, d, g);
    Extend(o, run, i, g, f);
  }

  /** Behind a free there are a DOWN_REF z that returned zero and its fence g, and between
    * any access and z some DOWN_REF d that the access happens before. */
  lemma AccessIsPublished(o: Orders, run: Run, i: nat, f: nat) returns (d: nat, z: nat, g: nat)
    requires Valid(run) && Within(run, WRAP)
    requires i < |run| && run[i].Access? && f < |run| && run[f].Free?
    ensures i < d <= z < g < f && run[d].DownRef? && UpTo(o, run, i, d)
    ensures ReachedZero(run, z) && run[g] == Fence(run[z].t) && run[g].t == run[f].t
  {
    assert ValidAt(run, f);
    z, g := FreeAllowed(run, f, run[f].t);
    ZeroIsFinal(run, z);
    assert run[i].NeedsReference();
    var r := KnownOrPublished(o, run, z + 1, i);
    ZeroIffLast(run, z);
    assert r !in After(run, z + 1).held;
    d :| i <= d < z + 1 && run[d].DownRef? && UpTo(o, run, i, d);
  }

  /** While any reference is live, no thread may free the object or owes the fence. */
  lemma NoFreeWhileHeld(run: Run, n: nat, r: Ref, t: Tid)
    requires Valid(run) && Within(run, WRAP) && n <= |run| && r in After(run, n).held
    ensures t !in After(run, n).freeing && t !in After(run, n).fencing
  {
    var s := After(run, n);
    if t in s.freeing || t in s.fencing {
      var d: nat;
      if t in s.fencing {
        d := FenceOwed(run, n, t);
      } else {
        var g;
        d, g := FreeAllowed(run, n, t);
      }
      ZeroIffLast(run, d);
      QuietAfterZero(run, d + 1, n);
      assert false;
    }
  }

  // ---- the object is freed once ----

  /** Before a DOWN_REF returns zero no thread is on its way to a free. */
  lemma NothingPendingBefore(run: Run, z: nat, n: nat)
    requires Valid(run) && Within(run, WRAP) && n <= z && ReachedZero(run, z)
    ensures After(run, n).fencing == {} && After(run, n).freeing == {}
  {
    LastReference(run, z);
    forall t: Tid
      ensures t !in After(run, n).fencing && t !in After(run, n).freeing
    {
      if t in After(run, n).fencing {
        var d := FenceOwed(run, n, t);
      } else if t in After(run, n).freeing {
        var d, g := FreeAllowed(run, n, t);
      }
    }
  }

  /** At any time at most one thread is between its zero count and its free. */
  lemma {:induction false} OnePending(run: Run, n: nat)
    requires Valid(run) && Within(run, WRAP) && n <= |run|
    ensures var s := After(run, n);
            |s.fencing| + |s.freeing| <= 1
  {
    if n == 0 {
    } else {
      OnePending(run, n - 1);
      assert ValidAt(run, n - 1);
      if ReachedZero(run, n - 1) {
        NothingPendingBefore(run, n - 1, n - 1);
      }
    }
  }

  /** After a free no thread is on its way to another. */
  lemma {:induction false} NothingPendingAfter(run: Run, f: nat, n: nat)
    requires Valid(run) && Within(run, WRAP) && f < n <= |run| && run[f].Free?
    ensures After(run, n).fencing == {} && After(run, n).freeing == {}
  {
    assert ValidAt(run, n - 1) && ValidAt(run, f);
    if n == f + 1 {
      OnePending(run, f);
      assert run[f].t in After(run, f).freeing;
      assert |After(run, f).freeing - {run[f].t}| == |After(run, f).freeing| - 1;
    } else {
      NothingPendingAfter(run, f, n - 1);
      if ReachedZero(run, n - 1) {
        NothingPendingBefore(run, n - 1, f);
      }
    }
  }

  ghost predicate FreedOnce(run: Run) {
    forall f: nat, g: nat | f < |run| && run[f].Free? && g < |run| && run[g].Free? :: f == g
  }

  lemma NoDoubleFree(run: Run)
    requires Valid(run) && Within(run, WRAP)
    ensures FreedOnce(run)
  {
    forall f: nat, g: nat | f < |run| && run[f].Free? && g < |run| && run[g].Free?
      ensures f == g
    {
      assert ValidAt(run, f) && ValidAt(run, g);
      if f < g {
        NothingPendingAfter(run, f, g);
      } else if g < f {
        NothingPendingAfter(run, g, f);
      }
    }
  }

  // ---- exactly when the protocol is safe ----

  ghost predicate Ordered(o: Orders, run: Run, i: nat, f: nat) {
    i < f < |run| && HappensBefore(o, run, i, f)
  }

  /** The object is freed at most once, and not before, or in a race with, any access. */
  ghost predicate SafeRun(o: Orders, run: Run) {
    && FreedOnce(run)
    && forall i: nat, f: nat | i < |run| && run[i].Access? && f < |run| && run[f].Free? :: Ordered(o, run, i, f)
  }

  /** All runs with at most b references are safe. */
  ghost predicate SafeUpTo(o: Orders, b: nat) {
    forall run: Run | Valid(run) && Within(run, b) :: SafeRun(o, run)
  }

  /** The exact demand, for all strengths of the actions and all bounds on the references:
    * the decrement must release, the fence must acquire, and the increment must be a
    * read-modify-write but may be relaxed; and no more than 2^32 references may be live.
    * With a single reference there is nothing to order and any strength will do. */
  lemma SafeIff(o: Orders, b: nat)
    ensures SafeUpTo(o, b) <==>
              b <= 1 || (b <= 0x1_0000_0000 && o.upIsRmw && o.downReleases && o.fenceAcquires)
  {
    if b <= 1 {
      SingleReferenceIsSafe(o, b);
    } else if b > WRAP {
      FloodIsUnsafe(o, b);
    } else if Sufficient(o) {
      SufficientIsSafe(o, b);
    } else {
      WeakIsUnsafe(o, b);
    }
  }

  lemma SourceOrdersAreSafe(b: nat)
    ensures SafeUpTo(SOURCE_ORDERS, b) <==> b <= 0x1_0000_0000
    ensures !SOURCE_ORDERS.upReleases
  {
    SafeIff(SOURCE_ORDERS, b);
  }

  lemma SufficientIsSafe(o: Orders, b: nat)
    requires Sufficient(o) && b <= WRAP
    ensures SafeUpTo(o, b)
  {
    forall run: Run | Valid(run) && Within(run, b)
      ensures SafeRun(o, run)
    {
      WithinMore(run, b, WRAP);
      NoDoubleFree(run);
      forall i: nat, f: nat | i < |run| && run[i].Access? && f < |run| && run[f].Free?
        ensures Ordered(o, run, i, f)
      {
        AccessBeforeFree(o, run, i, f);
      }
    }
  }

  /** With one reference the first DOWN_REF is the last, so program order and hand-overs
    * alone put every access before it. */
  lemma SingleReferenceIsSafe(o: Orders, b: nat)
    requires b <= 1
    ensures SafeUpTo(o, b)
  {
    forall run: Run | Valid(run) && Within(run, b)
      ensures SafeRun(o, run)
    {
      WithinMore(run, b, WRAP);
      NoDoubleFree(run);
      forall i: nat, f: nat | i < |run| && run[i].Access? && f < |run| && run[f].Free?
        ensures Ordered(o, run, i, f)
      {
        SingleReferenceOrders(o, run, b, i, f);
      }
    }
  }

  lemma SingleReferenceOrders(o: Orders, run: Run, b: nat, i: nat, f: nat)
    requires Valid(run) && Within(run, b) && b <= 1
    requires i < |run| && run[i].Access? && f < |run| && run[f].Free?
    ensures Ordered(o, run, i, f)
  {
    WithinMore(run, b, WRAP);
    var d, z, g := AccessIsPublished(o, run, i, f);
    OnlyDownRef(run, b, d, z);
    Extend(o, run, i, z, g);
    Extend(o, run, i, g, f);
  }

  lemma OnlyDownRef(run: Run, b: nat, d: nat, z: nat)
    requires Valid(run) && Within(run, b) && b <= 1
    requires d <= z < |run| && run[d].DownRef? && run[z].DownRef?
    ensures d == z
  {
    DownRefCount(run, d);
    assert WithinAt(run, d, b);
    QuietAfterZero(run, d + 1, |run|);
    assert run[z].NeedsReference();
  }

  /** Thread 1 accesses the object and drops its reference. Then thread 2 increments and drops
    * one of the two it holds, and thread 0 drops the last. Only the increment, if it continues
    * the release sequence, carries what thread 1 released on to thread 0. */
  const RACE: Run :=
    [UpRef(0, 1), Send(0, 1, 1), Access(1), DownRef(1, 1), Send(0, 0, 2), UpRef(2, 2), Send(2, 2, 0),
     DownRef(2, 0), DownRef(0, 2), Fence(0), Free(0)]

  ghost function RaceState(n: nat): State {
    match n
    case 0 => INITIAL
    case 1 => State(2, map[0 := 0, 1 := 0], {}, {})
    case 2 => State(2, map[0 := 0, 1 := 1], {}, {})
    case 3 => State(2, map[0 := 0, 1 := 1], {}, {})
    case 4 => State(1, map[0 := 0], {}, {})
    case 5 => State(1, map[0 := 2], {}, {})
    case 6 => State(2, map[0 := 2, 2 := 2], {}, {})
    case 7 => State(2, map[0 := 2, 2 := 0], {}, {})
    case 8 => State(1, map[2 := 0], {}, {})
    case 9 => State(0, map[], {0}, {})
    case 10 => State(0, map[], {}, {0})
    case _ => State(0, map[], {}, {})
  }

  lemma RaceStep(n: nat)
    requires n < 11
    ensures Enabled(RaceState(n), RACE[n]) && Next(RaceState(n), RACE[n]) == RaceState(n + 1)
  {
    var s := RaceState(n);
    assert n < 5 ==> s.held[0] == 0;
    assert n == 2 || n == 3 ==> s.held[1] == 1;
    assert n == 3 ==> s.held - {1} == map[0 := 0];
    assert n == 5 || n == 7 ==> s.held[0] == 2;
    assert n == 7 ==> s.held - {0} == map[2 := 0];
    assert n == 8 ==> s.held[2] == 0 && s.held - {2} == map[];
  }

  lemma {:induction false} RaceAfter(n: nat)
    requires n <= 11
    ensures After(RACE, n) == RaceState(n)
  {
    if n == 0 {
    } else {
      RaceAfter(n - 1);
      RaceStep(n - 1);
    }
  }

  lemma RaceHolds(n: nat)
    ensures |RaceState(n).held| <= 2
  {
  }

  lemma RaceRunIsValid()
    ensures Valid(RACE) && Within(RACE, 2)
  {
    forall n | 0 <= n < |RACE|
      ensures ValidAt(RACE, n)
    {
      RaceAfter(n);
      RaceStep(n);
    }
    forall n | 0 <= n <= |RACE|
      ensures WithinAt(RACE, n, 2)
    {
      RaceAfter(n);
      RaceHolds(n);
    }
  }

  /** Nothing leads from the events of thread 1 to later ones. */
  lemma RaceRunLinks(o: Orders, j: nat)
    requires !Sufficient(o) && 4 <= j <= 10
    ensures !Link(o, RACE, 2, j) && !Link(o, RACE, 3, j)
  {
    assert RACE[7].OnCounter();
    if o.fenceAcquires && o.downReleases {
      assert RACE[5].OnCounter() && !IsRmw(o, RACE[5]);
    }
  }

  lemma {:induction false} RaceRunRaces(o: Orders, j: nat)
    requires !Sufficient(o) && 4 <= j <= 10
    ensures !HappensBefore(o, RACE, 2, j)
  {
    RaceRunLinks(o, j);
    forall k | 2 < k < j
      ensures !(HappensBefore(o, RACE, 2, k) && Link(o, RACE, k, j))
    {
      if k > 3 {
        RaceRunRaces(o, k);
      }
    }
  }

  lemma WeakIsUnsafe(o: Orders, b: nat)
    requires !Sufficient(o) && b >= 2
    ensures !SafeUpTo(o, b)
  {
    RaceRunIsValid();
    WithinMore(RACE, 2, b);
    RaceRunRaces(o, 10);
    assert !Ordered(o, RACE, 2, 10);
  }

  /** One thread mints so many references that the counter comes round to 1 again; giving up
    * a single one then returns zero. */
  ghost function Flood(w: nat): Run {
    seq(w, k requires k >= 0 => Event.UpRef(0, k + 1)) + [DownRef(0, 0), Fence(0), Free(0), Access(0)]
  }

  ghost function Minted(n: nat): (held: map<Ref, Tid>)
    ensures forall r: Ref :: r in held <==> r <= n
    ensures forall r | r in held :: held[r] == 0
  {
    if n == 0 then map[ROOT_REF := 0] else Minted(n - 1)[n := 0]
  }

  lemma {:induction false} FloodState(w: nat, n: nat)
    requires n <= w
    ensures After(Flood(w), n) == State(WrapInt(n + 1), Minted(n), {}, {})
  {
    if n == 0 {
    } else {
      FloodState(w, n - 1);
      assert Flood(w)[n - 1] == Event.UpRef(0, n);
      WrapStep(n);
    }
  }

  ghost function FloodEndState(w: nat, k: nat): State {
    State(0, Minted(w) - {ROOT_REF}, if k == 1 then {0} else {}, if k == 2 then {0} else {})
  }

  lemma FloodDrop(w: nat)
    requires w == WRAP
    ensures After(Flood(w), w + 1) == FloodEndState(w, 1)
  {
    FloodState(w, w);
    assert Flood(w)[w] == DownRef(0, 0);
  }

  lemma FloodEnd(w: nat, k: nat)
    requires w == WRAP && 1 <= k <= 3
    ensures After(Flood(w), w + k) == FloodEndState(w, k)
  {
    FloodDrop(w);
    var run := Flood(w);
    assert run[w + 1] == Fence(0) && run[w + 2] == Free(0);
    assert After(run, w + 2) == Next(After(run, w + 1), Fence(0));
    assert After(run, w + 3) == Next(After(run, w + 2), Free(0));
  }

  lemma FloodIsValid(w: nat, n: nat)
    requires w == WRAP && n < |Flood(w)|
    ensures ValidAt(Flood(w), n)
  {
    if n <= w {
      FloodState(w, n);
      assert Minted(n)[ROOT_REF] == 0;
    } else {
      FloodEnd(w, n - w);
      assert FloodEndState(w, n - w).held[1] == 0;
    }
  }

  lemma {:induction false} MintedCount(n: nat)
    ensures |Minted(n)| == n + 1
  {
    if n == 0 {
    } else {
      MintedCount(n - 1);
      assert Minted(n).Keys == Minted(n - 1).Keys + {n};
    }
  }

  lemma FloodCount(w: nat, n: nat)
    requires w == WRAP && n <= |Flood(w)|
    ensures WithinAt(Flood(w), n, w + 1)
  {
    if n <= w {
      FloodState(w, n);
      MintedCount(n);
    } else if n <= w + 3 {
      FloodEnd(w, n - w);
      MintedCount(w);
      assert (Minted(w) - {ROOT_REF}).Keys == Minted(w).Keys - {ROOT_REF};
    } else {
      FloodCount(w, n - 1);
      assert Flood(w)[w + 3] == Access(0);
    }
  }

  /** With one reference more than 2^32 no strength helps: a run frees the object and then
    * accesses it through a live reference. */
  lemma FloodIsUnsafe(o: Orders, b: nat)
    requires b > WRAP
    ensures !SafeUpTo(o, b)
  {
    var w: nat := WRAP;
    var run, most := Flood(w), w + 1;
    forall n | 0 <= n < |run|
      ensures ValidAt(run, n)
    {
      FloodIsValid(w, n);
    }
    forall n | 0 <= n <= |run|
      ensures WithinAt(run, n, most)
    {
      FloodCount(w, n);
    }
    WithinMore(run, most, b);
    assert run[w + 2] == Free(0) && run[w + 3] == Access(0);
    assert !Ordered(o, run, w + 3, w + 2);
  }

  // ---- the two operations ----

  /** A shared counter together with the run that produced it. */
  class Counter {
    var val: int
    ghost var run: Run

    ghost predicate Consistent()
      reads this
    {
      Valid(run) && Within(run, INT_MAX) && val == After(run, |run|).val
    }

    constructor ()
      ensures Consistent() && run == []
    {
      val, run := 1, [];
    }

    /** Let `e` be the next event of the run. */
    ghost method Record(e: Event)
      requires Valid(run) && Within(run, INT_MAX) && Enabled(After(run, |run|), e)
      requires |Next(After(run, |run|), e).held| <= INT_MAX
      modifies this`run
      ensures run == old(run) + [e] && Valid(run) && Within(run, INT_MAX)
      ensures After(run, |run|) == Next(After(old(run), |old(run)|), e)
    {
      AfterAppend(run, e, INT_MAX);
      run := run + [e];
    }

    method UpRef(t: Tid, ghost ref: Ref) returns (code: int, ret: int)
      requires Consistent() && Enabled(After(run, |run|), Event.UpRef(t, ref))
      requires |After(run, |run|).held| < INT_MAX
      modifies this
      ensures Consistent() && run == old(run) + [Event.UpRef(t, ref)]
      ensures code == 1 && ret == |After(run, |run|).held|
    {
      CounterWraps(run, |run|);
      HeldCount(After(run, |run|), Event.UpRef(t, ref));
      var was := val;
      val := WrapInt(was + 1);
      ret := was + 1;
      Record(Event.UpRef(t, ref));
      CounterWraps(run, |run|);
      code := 1;
    }

    method DownRef(t: Tid, ghost ref: Ref) returns (code: int, ret: int)
      requires Consistent() && Enabled(After(run, |run|), Event.DownRef(t, ref))
      modifies this
      ensures Consistent()
      ensures run == old(run) + [Event.DownRef(t, ref)] + if ret == 0 then [Event.Fence(t)] else []
      ensures code == 1 && ret == |After(run, |run|).held|
      ensures ret == 0 <==> t in After(run, |run|).freeing
    {
      CounterWraps(run, |run|);
      HolderMayDrop(run, t, ref);
      var was := val;
      val := WrapInt(was - 1);
      ret := was - 1;
      Record(Event.DownRef(t, ref));
      CounterWraps(run, |run|);
      if ret == 0 {
        Record(Event.Fence(t));
      }
      code := 1;
    }
  }

  lemma HolderMayDrop(run: Run, t: Tid, ref: Ref)
    requires Valid(run) && Within(run, INT_MAX) && Enabled(After(run, |run|), DownRef(t, ref))
    ensures t !in After(run, |run|).freeing && t !in After(run, |run|).fencing
    ensures |Next(After(run, |run|), DownRef(t, ref)).held| == |After(run, |run|).held| - 1
    ensures |After(run, |run|).held| <= INT_MAX
  {
    WithinMore(run, INT_MAX, WRAP);
    NoFreeWhileHeld(run, |run|, ref, t);
    HeldCount(After(run, |run|), DownRef(t, ref));
    assert WithinAt(run, |run|, INT_MAX);
  }

  lemma {:induction false} AfterPrefix(run: Run, e: Event, n: nat)
    requires n <= |run|
    ensures After(run + [e], n) == After(run, n)
  {
    if n == 0 {
    } else {
      AfterPrefix(run, e, n - 1);
    }
  }

  lemma AfterAppend(run: Run, e: Event, b: nat)
    requires Valid(run) && Within(run, b) && Enabled(After(run, |run|), e)
    requires |Next(After(run, |run|), e).held| <= b
    ensures Valid(run + [e]) && Within(run + [e], b)
    ensures After(run + [e], |run| + 1) == Next(After(run, |run|), e)
  {
    var longer := run + [e];
    AfterPrefix(run, e, |run|);
    forall n | 0 <= n <= |run|
      ensures WithinAt(longer, n, b)
    {
      AfterPrefix(run, e, n);
      assert WithinAt(run, n, b);
    }
    forall n | 0 <= n < |run|
      ensures ValidAt(longer, n)
    {
      AfterPrefix(run, e, n);
      assert ValidAt(run, n);
    }
    assert ValidAt(longer, |run|) && WithinAt(longer, |run| + 1, b);
  }
}
