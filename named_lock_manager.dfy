/**
 * `my.java.util.concurrent.locks.NamedLockManager`: locks addressed by name. A table maps a key
 * derived from the name to an entry whose reference count says how many acquisitions are still
 * outstanding; the entry is created on first use and removed when the count drops to zero.
 */
module NamedLocks {
  import opened Wrappers
  import opened JavaStrings
  import Assert

  // ---------------------------------------------------------------------------------------------
  // Key derivation

  /** The two families of entries: the subclasses `NamedCriticalSectionLock` and `NamedReadWriteLock`. */
  datatype LockKind = CriticalSection | ReaderWriter

  /** The suffix each entry point passes to `generateLockName`. */
  function Suffix(kind: LockKind): string
  {
    match kind
    case CriticalSection => "criticalSection"
    case ReaderWriter => "readerWriter"
  }

  /** `LockName`: the caller's display name and the registry key derived from it. */
  datatype LockName = LockName(simpleName: string, fullName: string)

  /**
   * `generateLockName`: the key is `String.format("%s_%s_lock", lockName.toLowerCase(), suffix)`;
   * the display name is kept exactly as given. The key starts with the lower-cased name.
   */
  function GenerateLockName(lockName: string, suffix: string): (r: LockName)
  {
    LockName(lockName, ToLower(lockName) + "_" + suffix + "_lock")
  }

  /** The key starts with the lower-cased name and ends with `_`, the suffix and `_lock`. */
  lemma KeyShape(lockName: string, suffix: string)
    ensures var r := GenerateLockName(lockName, suffix);
      && r.simpleName == lockName
      && |r.fullName| == |lockName| + |suffix| + 6
      && r.fullName[..|lockName|] == ToLower(lockName)
      && r.fullName[|lockName|..] == "_" + suffix + "_lock"
  {
  }

  /** The registry key for a name of a given kind. */
  function KeyOf(name: string, kind: LockKind): string
  {
    GenerateLockName(name, Suffix(kind)).fullName
  }

  /** Two names of the same kind share a key exactly when their lower-cased forms are equal. */
  lemma {:induction false} SameKindKeysEqualIff(a: string, b: string, kind: LockKind)
    ensures KeyOf(a, kind) == KeyOf(b, kind) <==> ToLower(a) == ToLower(b)
  {
    var ka, kb := KeyOf(a, kind), KeyOf(b, kind);
    KeyShape(a, Suffix(kind));
    KeyShape(b, Suffix(kind));
    if ka == kb {
      assert |a| == |b|;
      assert ToLower(a) == ka[..|a|] == kb[..|b|] == ToLower(b);
    }
  }

  /** A critical-section key never equals a reader/writer key: the suffixes end in `n_lock` and `r_lock`. */
  lemma {:induction false} KindsNeverCollide(a: string, b: string)
    ensures KeyOf(a, CriticalSection) != KeyOf(b, ReaderWriter)
  {
    var ka, kb := KeyOf(a, CriticalSection), KeyOf(b, ReaderWriter);
    KeyShape(a, Suffix(CriticalSection));
    KeyShape(b, Suffix(ReaderWriter));
    assert ka[|ka| - 6] == ka[|a|..][|ka| - 6 - |a|] == 'n';
    assert kb[|kb| - 6] == kb[|b|..][|kb| - 6 - |b|] == 'r';
  }

  /** An upper-cased variant of a name reaches the same key (the tests' `toUpperCase()` acquirers). */
  lemma UpperCaseVariantSharesKey(name: string, kind: LockKind)
    ensures KeyOf(ToUpper(name), kind) == KeyOf(name, kind)
  {
    LowerOfUpper(name);
    SameKindKeysEqualIff(ToUpper(name), name, kind);
  }

  // ---------------------------------------------------------------------------------------------
  // The table as a value: what `getNamedLock` and `decrementReference` do to it

  /** What the table records for one key: the creator's display name, the kind and the count. */
  datatype EntryView = EntryView(displayName: string, kind: LockKind, count: int)

  type Table = map<string, EntryView>

  /** Every entry has count at least 1 and sits under the key derived from its display name and kind. */
  ghost predicate TableInvariant(t: Table)
  {
    forall k :: k in t ==> t[k].count >= 1 && KeyOf(t[k].displayName, t[k].kind) == k
  }

  /**
   * `getNamedLock`: an absent key gets a new entry with count 1 (the factory runs); a present key
   * has its count incremented and keeps its display name.
   */
  function AcquireSpec(t: Table, lockName: LockName, kind: LockKind): Table
  {
    var k := lockName.fullName;
    if k in t then t[k := t[k].(count := t[k].count + 1)]
    else t[k := EntryView(lockName.simpleName, kind, 1)]
  }

  /** `decrementReference`: the count drops by one and the entry is removed when it reaches zero. */
  function ReleaseSpec(t: Table, key: string): Table
  {
    if key !in t then t
    else if t[key].count - 1 == 0 then t - {key}
    else t[key := t[key].(count := t[key].count - 1)]
  }

  /** Acquiring keeps the table invariant. */
  lemma AcquirePreservesInvariant(t: Table, name: string, kind: LockKind)
    requires TableInvariant(t)
    ensures TableInvariant(AcquireSpec(t, GenerateLockName(name, Suffix(kind)), kind))
  {
  }

  /** Releasing keeps the table invariant. */
  lemma ReleasePreservesInvariant(t: Table, key: string)
    requires TableInvariant(t)
    ensures TableInvariant(ReleaseSpec(t, key))
  {
  }

  /**
   * Releasing a present key lowers its count by one, removes it exactly when the count was 1,
   * and leaves every other key untouched.
   */
  lemma ReleaseRemovesExactlyAtZero(t: Table, key: string)
    requires TableInvariant(t) && key in t
    ensures key in ReleaseSpec(t, key) <==> t[key].count > 1
    ensures key in ReleaseSpec(t, key) ==> ReleaseSpec(t, key)[key] == t[key].(count := t[key].count - 1)
    ensures forall k :: k != key ==> (k in ReleaseSpec(t, key) <==> k in t)
    ensures forall k :: k != key && k in t ==> ReleaseSpec(t, key)[k] == t[k]
  {
  }

  /** An acquisition followed by the matching release restores the table exactly. */
  lemma AcquireReleaseRoundTrip(t: Table, name: string, kind: LockKind)
    requires TableInvariant(t)
    ensures ReleaseSpec(AcquireSpec(t, GenerateLockName(name, Suffix(kind)), kind), KeyOf(name, kind)) == t
  {
    var k := KeyOf(name, kind);
    var t' := AcquireSpec(t, GenerateLockName(name, Suffix(kind)), kind);
    if k in t {
      assert t'[k].count - 1 == t[k].count >= 1;
      assert ReleaseSpec(t', k) == t'[k := t[k]];
    } else {
      assert ReleaseSpec(t', k) == t' - {k};
    }
  }

  /**
   * The entry keeps the display name of the acquirer that created it: after `first` creates it,
   * a later acquirer with any case variant `second` increments the same entry, and the name stays `first`.
   */
  lemma CreatorKeepsDisplayName(t: Table, first: string, second: string, kind: LockKind)
    requires KeyOf(first, kind) !in t
    requires ToLower(first) == ToLower(second)
    ensures var t' := AcquireSpec(AcquireSpec(t, GenerateLockName(first, Suffix(kind)), kind), GenerateLockName(second, Suffix(kind)), kind);
      t'[KeyOf(first, kind)] == EntryView(first, kind, 2)
  {
    SameKindKeysEqualIff(first, second, kind);
  }

  /**
   * The unit tests' nested acquisition: a name, then its upper-cased variant, share one entry with
   * count 2 under the first name; the first release keeps it (the other acquirer still uses it)
   * and the second leaves the table empty.
   */
  lemma {:induction false} NestedAcquisitionsLeaveEmpty(name: string, kind: LockKind)
    ensures var k := KeyOf(name, kind);
      var t1 := AcquireSpec(map[], GenerateLockName(name, Suffix(kind)), kind);
      var t2 := AcquireSpec(t1, GenerateLockName(ToUpper(name), Suffix(kind)), kind);
      && t2 == map[k := EntryView(name, kind, 2)]
      && ReleaseSpec(t2, k) == map[k := EntryView(name, kind, 1)]
      && ReleaseSpec(ReleaseSpec(t2, k), k) == map[]
  {
    UpperCaseVariantSharesKey(name, kind);
    var k := KeyOf(name, kind);
    assert ReleaseSpec(map[k := EntryView(name, kind, 1)], k) == map[k := EntryView(name, kind, 1)] - {k};
  }

  // ---------------------------------------------------------------------------------------------
  // Sequences of acquisitions and releases

  /** One call on the registry: an acquisition under a display name, or a release of a key. */
  datatype Op = AcquireOp(name: string, kind: LockKind) | ReleaseOp(key: string)

  function OpKey(op: Op): string
  {
    match op
    case AcquireOp(name, kind) => KeyOf(name, kind)
    case ReleaseOp(key) => key
  }

  function Apply(t: Table, op: Op): Table
  {
    match op
    case AcquireOp(name, kind) => AcquireSpec(t, GenerateLockName(name, Suffix(kind)), kind)
    case ReleaseOp(key) => ReleaseSpec(t, key)
  }

  /** The table after running `ops` on a new registry. */
  function Replay(ops: seq<Op>): Table
    decreases |ops|
  {
    if ops == [] then map[] else Apply(Replay(ops[..|ops| - 1]), ops[|ops| - 1])
  }

  /** Acquisitions minus releases of `key` in `ops`. */
  function Net(ops: seq<Op>, key: string): int
    decreases |ops|
  {
    if ops == [] then 0
    else
      var last := ops[|ops| - 1];
      Net(ops[..|ops| - 1], key) + (if OpKey(last) != key then 0 else if last.AcquireOp? then 1 else -1)
  }

  /** No prefix of `ops` releases a key more often than it acquired it. */
  ghost predicate Bracketed(ops: seq<Op>)
  {
    forall i, k :: 0 <= i <= |ops| ==> Net(ops[..i], k) >= 0
  }

  /** `t` is what a run of `ops` should leave: present keys are those with outstanding acquisitions, at that count. */
  ghost predicate CountsAgree(t: Table, ops: seq<Op>)
  {
    && (forall k :: Net(ops, k) >= 0)
    && (forall k :: k in t <==> Net(ops, k) > 0)
    && (forall k :: k in t ==> t[k].count == Net(ops, k))
  }

  /** How one more call changes the net count of each key. */
  lemma NetAppend(ops: seq<Op>, op: Op)
    ensures forall k :: Net(ops + [op], k) == Net(ops, k) + (if OpKey(op) != k then 0 else if op.AcquireOp? then 1 else -1)
  {
    assert (ops + [op])[..|ops|] == ops;
  }

  /** An acquisition keeps the table in agreement with the run. */
  lemma AcquireAgrees(t: Table, ops: seq<Op>, name: string, kind: LockKind)
    requires CountsAgree(t, ops)
    ensures CountsAgree(AcquireSpec(t, GenerateLockName(name, Suffix(kind)), kind), ops + [AcquireOp(name, kind)])
  {
    var key := KeyOf(name, kind);
    var t', ops' := AcquireSpec(t, GenerateLockName(name, Suffix(kind)), kind), ops + [AcquireOp(name, kind)];
    NetAppend(ops, AcquireOp(name, kind));
    forall k
      ensures Net(ops', k) >= 0
      ensures k in t' <==> Net(ops', k) > 0
      ensures k in t' ==> t'[k].count == Net(ops', k)
    {
      if k != key {
        assert k in t' <==> k in t;
      }
    }
  }

  /** A release keeps the table in agreement with the run, as long as it does not over-release. */
  lemma ReleaseAgrees(t: Table, ops: seq<Op>, key: string)
    requires CountsAgree(t, ops)
    requires Net(ops + [ReleaseOp(key)], key) >= 0
    ensures CountsAgree(ReleaseSpec(t, key), ops + [ReleaseOp(key)])
  {
    var t', ops' := ReleaseSpec(t, key), ops + [ReleaseOp(key)];
    NetAppend(ops, ReleaseOp(key));
    forall k
      ensures Net(ops', k) >= 0
      ensures k in t' <==> Net(ops', k) > 0
      ensures k in t' ==> t'[k].count == Net(ops', k)
    {
      if k == key && key in t {
        if t[key].count == 1 {
          assert k !in t';
        } else {
          assert t'[k].count == t[k].count - 1;
        }
      }
    }
  }

  /**
   * For a bracketed run from the empty table, a key is present exactly when it has outstanding
   * acquisitions, and its count is acquisitions minus releases.
   */
  lemma {:induction false} ReplayCounts(ops: seq<Op>)
    requires Bracketed(ops)
    ensures TableInvariant(Replay(ops))
    ensures forall k :: k in Replay(ops) <==> Net(ops, k) > 0
    ensures forall k :: k in Replay(ops) ==> Replay(ops)[k].count == Net(ops, k)
    decreases |ops|
  {
    if ops != [] {
      var n := |ops|;
      var prefix := ops[..n - 1];
      assert forall i :: 0 <= i <= |prefix| ==> prefix[..i] == ops[..i];
      ReplayCounts(prefix);
      assert ops[..n] == ops == prefix + [ops[n - 1]];
      match ops[n - 1]
      case AcquireOp(name, kind) =>
        AcquireAgrees(Replay(prefix), prefix, name, kind);
        AcquirePreservesInvariant(Replay(prefix), name, kind);
      case ReleaseOp(key) =>
        ReleaseAgrees(Replay(prefix), prefix, key);
        ReleasePreservesInvariant(Replay(prefix), key);
    }
  }

  /** Running one more acquisition: the table takes `AcquireSpec`, and the run stays bracketed. */
  lemma RecordAcquire(ops: seq<Op>, name: string, kind: LockKind)
    requires Bracketed(ops)
    ensures Replay(ops + [AcquireOp(name, kind)]) == AcquireSpec(Replay(ops), GenerateLockName(name, Suffix(kind)), kind)
    ensures Bracketed(ops + [AcquireOp(name, kind)])
  {
    var ops' := ops + [AcquireOp(name, kind)];
    assert ops'[..|ops|] == ops;
    forall i, k | 0 <= i <= |ops'|
      ensures Net(ops'[..i], k) >= 0
    {
      if i <= |ops| {
        assert ops'[..i] == ops[..i];
      } else {
        assert ops'[..i] == ops';
        assert ops[..|ops|] == ops;
        NetAppend(ops, AcquireOp(name, kind));
      }
    }
  }

  /** Running one more release of a present key: the table takes `ReleaseSpec`, and the run stays bracketed. */
  lemma RecordRelease(ops: seq<Op>, key: string)
    requires Bracketed(ops) && key in Replay(ops)
    ensures Replay(ops + [ReleaseOp(key)]) == ReleaseSpec(Replay(ops), key)
    ensures Bracketed(ops + [ReleaseOp(key)])
  {
    var ops' := ops + [ReleaseOp(key)];
    assert ops'[..|ops|] == ops;
    ReplayCounts(ops);
    forall i, k | 0 <= i <= |ops'|
      ensures Net(ops'[..i], k) >= 0
    {
      if i <= |ops| {
        assert ops'[..i] == ops[..i];
      } else {
        assert ops'[..i] == ops';
        assert ops[..|ops|] == ops;
        NetAppend(ops, ReleaseOp(key));
      }
    }
  }

  /** A run that releases every acquisition it made leaves the table empty. */
  lemma BalancedLeavesEmpty(ops: seq<Op>)
    requires Bracketed(ops)
    requires forall k :: Net(ops, k) == 0
    ensures Replay(ops) == map[]
  {
    ReplayCounts(ops);
    assert Replay(ops).Keys == {};
  }

  // ---------------------------------------------------------------------------------------------
  // Entries and handles

  /** The face of a domain lock a handle locks: the mutex, or the read or write side of a reader/writer lock. */
  datatype Mode = Exclusive | Read | Write

  /**
   * `NamedLock` with its subclasses `NamedCriticalSectionLock` and `NamedReadWriteLock`, told apart
   * by `kind`. The domain lock (`ReentrantLock` or `ReentrantReadWriteLock`) is opaque: the ghost
   * fields count how often each face of it is held, and how many references are `waiting`, that
   * is, taken by an acquirer that has not locked yet or kept by a closer that has unlocked but not
   * yet decremented.
   */
  class NamedLock {
    const lockName: LockName
    const kind: LockKind
    var nReferences: int
    ghost var exclusiveHolds: nat
    ghost var readHolds: nat
    ghost var writeHolds: nat
    ghost var waiting: nat

    /** A new entry starts with one reference, for the acquirer that made it and is about to lock. */
    constructor (lockName: LockName, kind: LockKind)
      ensures this.lockName == lockName && this.kind == kind && nReferences == 1
      ensures exclusiveHolds == readHolds == writeHolds == 0 && waiting == 1
    {
      this.lockName := lockName;
      this.kind := kind;
      nReferences := 1;
      exclusiveHolds, readHolds, writeHolds := 0, 0, 0;
      waiting := 1;
    }

    /** How often the `m` face of the domain lock is held. */
    ghost function Holds(m: Mode): nat
      reads this`exclusiveHolds, this`readHolds, this`writeHolds
    {
      match m
      case Exclusive => exclusiveHolds
      case Read => readHolds
      case Write => writeHolds
    }

    /** The references in use: every hold and every waiting reference. */
    ghost function InUse(): int
      reads this`exclusiveHolds, this`readHolds, this`writeHolds, this`waiting
    {
      exclusiveHolds + readHolds + writeHolds + waiting
    }

    /** Only the faces this entry's domain lock has are ever held. */
    ghost predicate FacesFit()
      reads this`exclusiveHolds, this`readHolds, this`writeHolds
    {
      if kind == CriticalSection then readHolds == 0 && writeHolds == 0 else exclusiveHolds == 0
    }
  }

  /**
   * What an acquirer gets back. A critical-section entry is its own handle; the read and write
   * handles are the decorators `NamedReadLock` and `NamedWriteLock`, which hold their parent entry
   * and forward reference counting, closing and `getLockName` to it.
   */
  datatype Handle = CriticalSectionHandle(lock: NamedLock) | ReadHandle(parent: NamedLock) | WriteHandle(parent: NamedLock)
  {
    /** The entry whose count this handle uses. */
    function Entry(): NamedLock
    {
      match this
      case CriticalSectionHandle(lock) => lock
      case ReadHandle(parent) => parent
      case WriteHandle(parent) => parent
    }

    /** The face of the domain lock this handle locks and unlocks. */
    function LockMode(): Mode
    {
      match this
      case CriticalSectionHandle(_) => Exclusive
      case ReadHandle(_) => Read
      case WriteHandle(_) => Write
    }

    /** `getLockName()`: the display name stored in the entry. */
    function GetLockName(): string
    {
      Entry().lockName.simpleName
    }

    /** A critical-section handle is over a critical-section entry; read and write handles are over a reader/writer entry. */
    predicate Fits()
    {
      CriticalSectionHandle? <==> Entry().kind == CriticalSection
    }
  }

  // ---------------------------------------------------------------------------------------------
  // The registry

  /** Two appends in a row are one append of both. */
  lemma AppendPair<T>(a: seq<T>, b: seq<T>, c: seq<T>, x: T, y: T)
    requires b == a + [x] && c == b + [y]
    ensures c == a + [x, y]
  {
  }

  /** Two appends of two elements in a row are one append of all four. */
  lemma AppendPairs<T>(a: seq<T>, b: seq<T>, c: seq<T>, x: T, y: T, u: T, v: T)
    requires b == a + [x, y] && c == b + [u, v]
    ensures c == a + [x, y, u, v]
  {
  }

  /** The entry's name is what `generateLockName` makes of its display name and its kind's suffix. */
  ghost predicate Derivation(e: NamedLock)
  {
    e.lockName == GenerateLockName(e.lockName.simpleName, Suffix(e.kind))
  }

  /** The steps of the protocol, in the order they happen. */
  datatype Event =
    | FactoryCreated(entry: NamedLock)           // the factory built `entry`, whose count starts at 1
    | Incremented(entry: NamedLock)              // `incrementReference`
    | Decremented(entry: NamedLock)              // `decrementReference`
    | Locked(entry: NamedLock, mode: Mode)       // `lock()` on the domain lock
    | Unlocked(entry: NamedLock, mode: Mode)     // `unlock()` on the domain lock

  /**
   * `NamedLockManager`. Each `synchronized (syncObject)` block is one method run to completion;
   * `trace` records the steps so far, and `history` the reference steps as calls on the table.
   */
  class NamedLockManager {
    var acquiredLocks: map<string, NamedLock>
    ghost var trace: seq<Event>
    ghost var history: seq<Op>

    /** `e` is the entry the table lists under its key. */
    ghost predicate Listed(e: NamedLock)
      reads this`acquiredLocks
    {
      e.lockName.fullName in acquiredLocks && acquiredLocks[e.lockName.fullName] == e
    }

    /** Each entry sits under its own key. */
    ghost predicate Named()
      reads this`acquiredLocks
    {
      forall k | k in acquiredLocks :: acquiredLocks[k].lockName.fullName == k
    }

    /**
     * Each entry's key was derived from its display name and kind. The quantifier is only
     * instantiated where `Derivation` of an entry is mentioned, which keeps the string reasoning
     * out of the proofs that do not need it.
     */
    ghost predicate Derived()
      reads this`acquiredLocks
    {
      forall k {:trigger Derivation(acquiredLocks[k])} | k in acquiredLocks :: Derivation(acquiredLocks[k])
    }

    /** One entry's share of the invariant: only its lock's faces are held, and its count is the references in use on it. */
    ghost predicate Counts(e: NamedLock)
      reads e
    {
      e.FacesFit() && e.nReferences == e.InUse() >= 1
    }

    /** Every listed entry keeps its share of the invariant. */
    ghost predicate Counted()
      reads this`acquiredLocks, acquiredLocks.Values
    {
      forall k {:trigger Counts(acquiredLocks[k])} | k in acquiredLocks :: Counts(acquiredLocks[k])
    }

    /**
     * The registry invariant. Because a count is the number of references in use, an entry that
     * is held, or waited for, is never out of the table.
     */
    ghost predicate Valid()
      reads this`acquiredLocks, acquiredLocks.Values
    {
      Named() && Derived() && Counted()
    }

    /** The table as a value. */
    ghost function Table(): Table
      reads this`acquiredLocks, acquiredLocks.Values`nReferences
    {
      map k | k in acquiredLocks :: EntryView(acquiredLocks[k].lockName.simpleName, acquiredLocks[k].kind, acquiredLocks[k].nReferences)
    }

    /** The entry an acquisition under `key` may change: the one listed there, if any. */
    ghost function EntryFrame(key: string): set<object>
      reads this`acquiredLocks
    {
      if key in acquiredLocks then {acquiredLocks[key]} else {}
    }

    /** The table is what replaying the recorded reference steps on an empty table gives, and no key was released more often than acquired. */
    ghost predicate Recorded()
      reads this`acquiredLocks, acquiredLocks.Values`nReferences, this`history
    {
      Bracketed(history) && Table() == Replay(history)
    }

    /** Every listed entry but `e` was listed before, under the same key and with the same count. */
    twostate predicate OthersKeepCounts(new e: NamedLock)
      reads this`acquiredLocks, acquiredLocks.Values`nReferences
    {
      forall k | k in acquiredLocks && k != e.lockName.fullName ::
        k in old(acquiredLocks) && acquiredLocks[k] == old(acquiredLocks[k]) && old(acquiredLocks[k].nReferences) == acquiredLocks[k].nReferences
    }

    /** An increment of a listed entry's count is `AcquireSpec` on the table. */
    twostate lemma IncrementedTable(e: NamedLock)
      requires unchanged(this`acquiredLocks) && Listed(e) && OthersKeepCounts(e)
      requires e.nReferences == old(e.nReferences) + 1
      ensures Table() == AcquireSpec(old(Table()), e.lockName, e.kind)
    {
    }

    /** Putting a new entry with count 1 under an absent key is `AcquireSpec` on the table. */
    twostate lemma AddedTable(new e: NamedLock)
      requires e.lockName.fullName !in old(acquiredLocks)
      requires acquiredLocks == old(acquiredLocks)[e.lockName.fullName := e] && OthersKeepCounts(e)
      requires e.nReferences == 1
      ensures Table() == AcquireSpec(old(Table()), e.lockName, e.kind)
    {
    }

    /** A decrement that leaves a listed entry's count positive is `ReleaseSpec` on the table. */
    twostate lemma DecrementedTable(e: NamedLock)
      requires unchanged(this`acquiredLocks) && Listed(e) && OthersKeepCounts(e)
      requires e.nReferences == old(e.nReferences) - 1 > 0
      ensures Table() == ReleaseSpec(old(Table()), e.lockName.fullName)
    {
    }

    /** Removing a listed entry whose count was 1 is `ReleaseSpec` on the table. */
    twostate lemma RemovedTable(e: NamedLock)
      requires old(Listed(e)) && old(e.nReferences) == 1
      requires acquiredLocks == old(acquiredLocks) - {e.lockName.fullName} && OthersKeepCounts(e)
      ensures Table() == ReleaseSpec(old(Table()), e.lockName.fullName)
    {
    }

    /** When only the listed entry `e` changed, the others keep their share of the invariant. */
    twostate lemma OneEntryChanged(e: NamedLock)
      requires unchanged(this`acquiredLocks) && Listed(e)
      requires forall k | k in acquiredLocks && k != e.lockName.fullName :: unchanged(acquiredLocks[k])
      ensures old(Counted()) && Counts(e) ==> Counted()
    {
    }

    /** Putting `e` under its own absent key keeps the invariant of the others. */
    twostate lemma EntryAdded(new e: NamedLock)
      requires old(Named()) && e.lockName.fullName !in old(acquiredLocks)
      requires acquiredLocks == old(acquiredLocks)[e.lockName.fullName := e]
      requires forall k | k in old(acquiredLocks) :: unchanged(old(acquiredLocks)[k])
      ensures Named()
      ensures old(Derived()) && Derivation(e) ==> Derived()
      ensures old(Counted()) && Counts(e) ==> Counted()
    {
      if old(Derived()) && Derivation(e) {
        forall k | k in acquiredLocks
          ensures Derivation(acquiredLocks[k])
        {
          if k != e.lockName.fullName {
            assert Derivation(old(acquiredLocks)[k]);
          }
        }
      }
    }

    /** Removing a key keeps the invariant of the others. */
    twostate lemma EntryRemoved(key: string)
      requires acquiredLocks == old(acquiredLocks) - {key}
      requires forall k | k in acquiredLocks :: unchanged(acquiredLocks[k])
      ensures old(Named()) ==> Named()
      ensures old(Derived()) ==> Derived()
      ensures old(Counted()) ==> Counted()
    {
      if old(Derived()) {
        forall k | k in acquiredLocks
          ensures Derivation(acquiredLocks[k])
        {
          assert Derivation(old(acquiredLocks)[k]);
        }
      }
    }

    /** The entry listed under the key of a derived name has that name's kind. */
    lemma ListedKind(lockName: LockName, kind: LockKind)
      requires Named() && Derived()
      requires lockName == GenerateLockName(lockName.simpleName, Suffix(kind))
      requires lockName.fullName in acquiredLocks
      ensures acquiredLocks[lockName.fullName].kind == kind
    {
      var e := acquiredLocks[lockName.fullName];
      assert Derivation(e);
      assert KeyOf(e.lockName.simpleName, e.kind) == KeyOf(lockName.simpleName, kind);
      if e.kind != kind {
        if kind == CriticalSection {
          KindsNeverCollide(lockName.simpleName, e.lockName.simpleName);
        } else {
          KindsNeverCollide(e.lockName.simpleName, lockName.simpleName);
        }
      }
    }

    /** The registry's table as a value satisfies the table invariant. */
    lemma TableMatches()
      requires Valid()
      ensures TableInvariant(Table())
    {
      forall k | k in Table()
        ensures Table()[k].count >= 1 && KeyOf(Table()[k].displayName, Table()[k].kind) == k
      {
        assert Counts(acquiredLocks[k]) && Derivation(acquiredLocks[k]);
      }
    }

    /** A new registry is empty. */
    constructor ()
      ensures Valid() && Recorded() && acquiredLocks == map[] && trace == [] && history == []
    {
      acquiredLocks := map[];
      trace := [];
      history := [];
    }

    /** An increment of a listed entry's count and waiting references keeps the invariant and is `AcquireSpec` on the table. */
    twostate lemma IncrementStep(e: NamedLock)
      requires old(Valid()) && unchanged(this`acquiredLocks) && Listed(e)
      requires forall k | k in acquiredLocks && k != e.lockName.fullName :: unchanged(acquiredLocks[k])
      requires e.nReferences == old(e.nReferences) + 1 && e.waiting == old(e.waiting) + 1
      requires unchanged(e`exclusiveHolds, e`readHolds, e`writeHolds)
      ensures Valid() && Table() == AcquireSpec(old(Table()), e.lockName, e.kind)
    {
      assert old(Counts(e)) && Counts(e);
      OneEntryChanged(e);
      IncrementedTable(e);
    }

    /** `incrementReference`: one more reference on a listed entry, waiting until its acquirer locks. */
    method IncrementReference(entry: NamedLock)
      requires Valid() && Listed(entry)
      modifies this`trace, entry`nReferences, entry`waiting
      ensures Valid() && acquiredLocks == old(acquiredLocks)
      ensures entry.nReferences == old(entry.nReferences) + 1 && entry.waiting == old(entry.waiting) + 1
      ensures Table() == AcquireSpec(old(Table()), entry.lockName, entry.kind)
      ensures trace == old(trace) + [Incremented(entry)]
    {
      assert forall k | k in acquiredLocks && k != entry.lockName.fullName :: acquiredLocks[k] != entry;
      entry.nReferences := entry.nReferences + 1;
      entry.waiting := entry.waiting + 1;
      trace := trace + [Incremented(entry)];
      IncrementStep(entry);
    }

    /** The factory's branch of `getNamedLock`: a new entry with count 1 is put under an absent key. */
    method AddEntry(lockName: LockName, kind: LockKind) returns (entry: NamedLock)
      requires Valid()
      requires lockName == GenerateLockName(lockName.simpleName, Suffix(kind))
      requires lockName.fullName !in acquiredLocks
      modifies this`acquiredLocks, this`trace
      ensures Valid() && fresh(entry)
      ensures acquiredLocks == old(acquiredLocks)[lockName.fullName := entry]
      ensures entry.lockName == lockName && entry.kind == kind
      ensures entry.exclusiveHolds == entry.readHolds == entry.writeHolds == 0 && entry.waiting == 1
      ensures Table() == AcquireSpec(old(Table()), lockName, kind)
      ensures trace == old(trace) + [FactoryCreated(entry)]
    {
      entry := new NamedLock(lockName, kind);
      acquiredLocks := acquiredLocks[lockName.fullName := entry];
      trace := trace + [FactoryCreated(entry)];
      EntryAdded(entry);
      AddedTable(entry);
    }

    /** Records an acquisition that changed the table from `before` as `AcquireSpec` says; the table stays the replay of the history. */
    ghost method NoteAcquire(before: Table, lockName: LockName, kind: LockKind)
      requires Bracketed(history) && before == Replay(history)
      requires lockName == GenerateLockName(lockName.simpleName, Suffix(kind))
      requires Table() == AcquireSpec(before, lockName, kind)
      modifies this`history
      ensures history == old(history) + [AcquireOp(lockName.simpleName, kind)]
      ensures Recorded()
    {
      RecordAcquire(history, lockName.simpleName, kind);
      history := history + [AcquireOp(lockName.simpleName, kind)];
    }

    /** Records a release of `key` that changed the table from `before` as `ReleaseSpec` says; the table stays the replay of the history. */
    ghost method NoteRelease(before: Table, key: string)
      requires Bracketed(history) && before == Replay(history) && key in before
      requires Table() == ReleaseSpec(before, key)
      modifies this`history
      ensures history == old(history) + [ReleaseOp(key)]
      ensures Recorded()
    {
      RecordRelease(history, key);
      history := history + [ReleaseOp(key)];
    }

    /**
     * `getNamedLock`: returns the entry for `lockName`, creating it with count 1 when the key is
     * absent (the factory runs exactly then) and incrementing the existing entry's count otherwise.
     * Either way the caller now has a waiting reference on the entry.
     */
    method GetNamedLock(lockName: LockName, kind: LockKind) returns (entry: NamedLock)
      requires Valid() && Recorded()
      requires lockName == GenerateLockName(lockName.simpleName, Suffix(kind))
      modifies this`acquiredLocks, this`trace, this`history, EntryFrame(lockName.fullName)
      ensures Valid() && Listed(entry) && entry.lockName.fullName == lockName.fullName && entry.kind == kind
      ensures Table() == AcquireSpec(old(Table()), lockName, kind)
      ensures Recorded() && history == old(history) + [AcquireOp(lockName.simpleName, kind)]
      ensures acquiredLocks == old(acquiredLocks)[lockName.fullName := entry]
      ensures lockName.fullName in old(acquiredLocks) ==>
                && entry == old(acquiredLocks[lockName.fullName])
                && (forall m :: entry.Holds(m) == old(entry.Holds(m))) && entry.waiting == old(entry.waiting) + 1
                && trace == old(trace) + [Incremented(entry)]
      ensures lockName.fullName !in old(acquiredLocks) ==>
                && fresh(entry)
                && (forall m :: entry.Holds(m) == 0) && entry.waiting == 1
                && trace == old(trace) + [FactoryCreated(entry)]
    {
      ghost var before := Table();
      if lockName.fullName in acquiredLocks {
        ListedKind(lockName, kind);
        entry := acquiredLocks[lockName.fullName];
        IncrementReference(entry);
      } else {
        entry := AddEntry(lockName, kind);
      }
      NoteAcquire(before, lockName, kind);
    }

    /** Moving references of a listed entry between its holds and waiting keeps the invariant and the table. */
    twostate lemma HoldsMoved(e: NamedLock)
      requires old(Valid()) && unchanged(this`acquiredLocks) && Listed(e)
      requires forall k | k in acquiredLocks && k != e.lockName.fullName :: unchanged(acquiredLocks[k])
      requires unchanged(e`nReferences) && Counts(e)
      ensures Valid() && Table() == old(Table())
    {
      OneEntryChanged(e);
    }

    /** `getNamedReadWriteLock`: the reader/writer entry for `lockName`, with one more waiting reference on it. */
    method GetNamedReadWriteLock(lockName: string) returns (entry: NamedLock)
      requires Valid() && Recorded()
      modifies this`acquiredLocks, this`trace, this`history, EntryFrame(KeyOf(lockName, ReaderWriter))
      ensures Valid() && Listed(entry) && entry.kind == ReaderWriter
      ensures Recorded() && history == old(history) + [AcquireOp(lockName, ReaderWriter)]
      ensures acquiredLocks == old(acquiredLocks)[KeyOf(lockName, ReaderWriter) := entry]
      ensures entry.lockName.fullName == KeyOf(lockName, ReaderWriter)
      ensures Table() == AcquireSpec(old(Table()), GenerateLockName(lockName, Suffix(ReaderWriter)), ReaderWriter)
      ensures KeyOf(lockName, ReaderWriter) in old(acquiredLocks) ==>
                && entry == old(acquiredLocks[KeyOf(lockName, ReaderWriter)])
                && (forall m :: entry.Holds(m) == old(entry.Holds(m))) && entry.waiting == old(entry.waiting) + 1
                && trace == old(trace) + [Incremented(entry)]
      ensures KeyOf(lockName, ReaderWriter) !in old(acquiredLocks) ==>
                && fresh(entry)
                && (forall m :: entry.Holds(m) == 0) && entry.waiting == 1
                && trace == old(trace) + [FactoryCreated(entry)]
    {
      var readerWriterLockName := GenerateLockName(lockName, Suffix(ReaderWriter));
      entry := GetNamedLock(readerWriterLockName, ReaderWriter);
    }

    /**
     * `acquireLock`: the caller's waiting reference turns into a hold on the handle's face of the
     * domain lock. The count does not change.
     */
    method AcquireLock(h: Handle)
      requires Valid() && Listed(h.Entry()) && h.Fits() && h.Entry().waiting > 0
      modifies this`trace, h.Entry()`exclusiveHolds, h.Entry()`readHolds, h.Entry()`writeHolds, h.Entry()`waiting
      ensures Valid() && Table() == old(Table())
      ensures h.Entry().Holds(h.LockMode()) == old(h.Entry().Holds(h.LockMode())) + 1
      ensures forall m | m != h.LockMode() :: h.Entry().Holds(m) == old(h.Entry().Holds(m))
      ensures h.Entry().waiting == old(h.Entry().waiting) - 1
      ensures trace == old(trace) + [Locked(h.Entry(), h.LockMode())]
    {
      var e := h.Entry();
      assert Counts(e);
      assert forall k | k in acquiredLocks && k != e.lockName.fullName :: acquiredLocks[k] != e;
      match h.LockMode() {
        case Exclusive => e.exclusiveHolds := e.exclusiveHolds + 1;
        case Read => e.readHolds := e.readHolds + 1;
        case Write => e.writeHolds := e.writeHolds + 1;
      }
      e.waiting := e.waiting - 1;
      trace := trace + [Locked(e, h.LockMode())];
      HoldsMoved(e);
    }

    /** `unlock()`: a hold on the handle's face is given back; the reference stays until the decrement. */
    method Unlock(h: Handle)
      requires Valid() && Listed(h.Entry()) && h.Entry().Holds(h.LockMode()) > 0
      modifies this`trace, h.Entry()`exclusiveHolds, h.Entry()`readHolds, h.Entry()`writeHolds, h.Entry()`waiting
      ensures Valid() && Table() == old(Table())
      ensures h.Entry().Holds(h.LockMode()) == old(h.Entry().Holds(h.LockMode())) - 1
      ensures forall m | m != h.LockMode() :: h.Entry().Holds(m) == old(h.Entry().Holds(m))
      ensures h.Entry().waiting == old(h.Entry().waiting) + 1
      ensures trace == old(trace) + [Unlocked(h.Entry(), h.LockMode())]
    {
      var e := h.Entry();
      assert Counts(e);
      assert forall k | k in acquiredLocks && k != e.lockName.fullName :: acquiredLocks[k] != e;
      match h.LockMode() {
        case Exclusive => e.exclusiveHolds := e.exclusiveHolds - 1;
        case Read => e.readHolds := e.readHolds - 1;
        case Write => e.writeHolds := e.writeHolds - 1;
      }
      e.waiting := e.waiting + 1;
      trace := trace + [Unlocked(e, h.LockMode())];
      HoldsMoved(e);
    }

    /** A decrement of a listed entry, and its removal when the count reached zero, keep the invariant and are `ReleaseSpec` on the table. */
    twostate lemma DecrementStep(e: NamedLock)
      requires old(Valid()) && old(Listed(e))
      requires e.nReferences == old(e.nReferences) - 1 && e.waiting == old(e.waiting) - 1
      requires unchanged(e`exclusiveHolds, e`readHolds, e`writeHolds)
      requires acquiredLocks == if e.nReferences == 0 then old(acquiredLocks) - {e.lockName.fullName} else old(acquiredLocks)
      requires forall k | k in old(acquiredLocks) && k != e.lockName.fullName :: unchanged(old(acquiredLocks)[k])
      ensures Valid() && Table() == ReleaseSpec(old(Table()), e.lockName.fullName)
    {
      if e.nReferences == 0 {
        EntryRemoved(e.lockName.fullName);
        RemovedTable(e);
      } else {
        assert old(Counts(e)) && Counts(e);
        OneEntryChanged(e);
        DecrementedTable(e);
      }
    }

    /** `decrementReference`: one reference fewer; the entry leaves the table when its count reaches zero. */
    method DecrementReference(entry: NamedLock)
      requires Valid() && Recorded() && Listed(entry) && entry.waiting > 0
      modifies this`acquiredLocks, this`trace, this`history, entry`nReferences, entry`waiting
      ensures Valid()
      ensures Recorded() && history == old(history) + [ReleaseOp(entry.lockName.fullName)]
      ensures entry.nReferences == old(entry.nReferences) - 1 && entry.waiting == old(entry.waiting) - 1
      ensures old(entry.nReferences) == 1 ==> acquiredLocks == old(acquiredLocks) - {entry.lockName.fullName}
      ensures old(entry.nReferences) != 1 ==> acquiredLocks == old(acquiredLocks)
      ensures Table() == ReleaseSpec(old(Table()), entry.lockName.fullName)
      ensures trace == old(trace) + [Decremented(entry)]
    {
      ListedView(entry);
      ghost var before := Table();
      assert forall k | k in acquiredLocks && k != entry.lockName.fullName :: acquiredLocks[k] != entry;
      entry.nReferences := entry.nReferences - 1;
      entry.waiting := entry.waiting - 1;
      trace := trace + [Decremented(entry)];
      if entry.nReferences == 0 {
        acquiredLocks := acquiredLocks - {entry.lockName.fullName};
      }
      DecrementStep(entry);
      NoteRelease(before, entry.lockName.fullName);
    }

    /**
     * `close()` on a handle: `unlock()` on its face of the domain lock first, then
     * `decrementReference` on its entry (the decorators forward it to their parent).
     */
    method Close(h: Handle)
      requires Valid() && Recorded() && Listed(h.Entry()) && h.Entry().Holds(h.LockMode()) > 0
      modifies this`acquiredLocks, this`trace, this`history
      modifies h.Entry()`nReferences, h.Entry()`exclusiveHolds, h.Entry()`readHolds, h.Entry()`writeHolds, h.Entry()`waiting
      ensures Valid()
      ensures Table() == ReleaseSpec(old(Table()), h.Entry().lockName.fullName)
      ensures old(h.Entry().nReferences) == 1 ==> acquiredLocks == old(acquiredLocks) - {h.Entry().lockName.fullName}
      ensures old(h.Entry().nReferences) != 1 ==> acquiredLocks == old(acquiredLocks)
      ensures h.Entry().Holds(h.LockMode()) == old(h.Entry().Holds(h.LockMode())) - 1
      ensures forall m | m != h.LockMode() :: h.Entry().Holds(m) == old(h.Entry().Holds(m))
      ensures h.Entry().waiting == old(h.Entry().waiting)
      ensures trace == old(trace) + [Unlocked(h.Entry(), h.LockMode()), Decremented(h.Entry())]
      ensures Recorded() && history == old(history) + [ReleaseOp(h.Entry().lockName.fullName)]
    {
      Unlock(h);
      DecrementReference(h.Entry());
    }

    /**
     * What a successful acquisition of `name` as `kind` leaves: the entry for the name's key is
     * listed and held once more through `h`, the table is `AcquireSpec` of the old one, `h` reports
     * the display name of whoever created the entry, and the steps were the reference step
     * (the factory or `incrementReference`) followed by `lock()`.
     */
    twostate predicate AcquiredBy(new h: Handle, name: string, kind: LockKind)
      reads this`acquiredLocks, this`trace, this`history, acquiredLocks.Values, h.Entry()
    {
      var key, e, m := KeyOf(name, kind), h.Entry(), h.LockMode();
      && Valid() && Listed(e) && e.kind == kind && h.Fits()
      && Recorded() && history == old(history) + [AcquireOp(name, kind)]
      && acquiredLocks == old(acquiredLocks)[key := e]
      && Table() == AcquireSpec(old(Table()), GenerateLockName(name, Suffix(kind)), kind)
      && h.GetLockName() == (if key in old(Table()) then old(Table())[key].displayName else name)
      && (key in old(acquiredLocks) ==>
            && e == old(acquiredLocks[key])
            && e.Holds(m) == old(acquiredLocks[key].Holds(m)) + 1
            && (forall m' | m' != m :: e.Holds(m') == old(acquiredLocks[key].Holds(m')))
            && e.waiting == old(acquiredLocks[key].waiting)
            && trace == old(trace) + [Incremented(e), Locked(e, m)])
      && (key !in old(acquiredLocks) ==>
            && fresh(e)
            && e.Holds(m) == 1
            && (forall m' | m' != m :: e.Holds(m') == 0)
            && e.waiting == 0
            && trace == old(trace) + [FactoryCreated(e), Locked(e, m)])
    }

    /** A listed entry's view in the table is its display name, kind and count. */
    lemma ListedView(e: NamedLock)
      requires Listed(e)
      ensures e.lockName.fullName in Table()
      ensures Table()[e.lockName.fullName] == EntryView(e.lockName.simpleName, e.kind, e.nReferences)
    {
    }

    /**
     * The common path of the three entry points: `getNamedLock` (through `getNamedReadWriteLock`
     * for the reader/writer kind), then `acquireLock` on the handle for `mode`.
     */
    method AcquireAs(name: string, kind: LockKind, mode: Mode) returns (h: Handle)
      requires Valid() && Recorded() && (mode == Exclusive <==> kind == CriticalSection)
      modifies this`acquiredLocks, this`trace, this`history, EntryFrame(KeyOf(name, kind))
      ensures h.LockMode() == mode && AcquiredBy(h, name, kind)
    {
      ghost var key := KeyOf(name, kind);
      ghost var existed := key in acquiredLocks;
      ghost var heldBefore := if existed then acquiredLocks[key].Holds(mode) else 0;
      var entry;
      if kind == CriticalSection {
        var criticalSectionLockName := GenerateLockName(name, Suffix(CriticalSection));
        entry := GetNamedLock(criticalSectionLockName, CriticalSection);
      } else {
        entry := GetNamedReadWriteLock(name);
      }
      ghost var referenced, heldAfterReference := trace, entry.Holds(mode);
      assert heldAfterReference == heldBefore;
      ghost var step := if existed then Incremented(entry) else FactoryCreated(entry);
      assert referenced == old(trace) + [step];
      h := match mode
        case Exclusive => CriticalSectionHandle(entry)
        case Read => ReadHandle(entry)
        case Write => WriteHandle(entry);
      AcquireLock(h);
      ListedView(entry);
      AppendPair(old(trace), referenced, trace, step, Locked(entry, mode));
    }

    /**
     * `acquireCriticalSectionLock`: validates the name, takes a reference on its critical-section
     * entry and locks the entry's mutex. A null or blank name is refused and nothing changes.
     */
    method AcquireCriticalSectionLock(lockName: Option<string>) returns (r: Result<Handle, Assert.IllegalArgumentException>)
      requires Valid() && Recorded()
      modifies this`acquiredLocks, this`trace, this`history, if lockName.Some? then EntryFrame(KeyOf(lockName.value, CriticalSection)) else {}
      ensures r.Failure? <==> Assert.NotNullOrEmptyOrWhiteSpace("lockName", lockName).Fail?
      ensures r.Failure? ==> && r.error == Assert.NotNullOrEmptyOrWhiteSpace("lockName", lockName).error
                             && acquiredLocks == old(acquiredLocks) && unchanged(acquiredLocks.Values)
                             && Valid() && Recorded() && trace == old(trace) && history == old(history)
      ensures r.Success? ==> r.value.CriticalSectionHandle? && AcquiredBy(r.value, lockName.value, CriticalSection)
    {
      var check := Assert.NotNullOrEmptyOrWhiteSpace("lockName", lockName);
      if check.Fail? {
        return Failure(check.error);
      }
      var h := AcquireAs(lockName.value, CriticalSection, Exclusive);
      r := Success(h);
    }

    /**
     * `acquireReadLock`: validates the name, takes a reference on its reader/writer entry and
     * locks the read side through the entry's read decorator.
     */
    method AcquireReadLock(lockName: Option<string>) returns (r: Result<Handle, Assert.IllegalArgumentException>)
      requires Valid() && Recorded()
      modifies this`acquiredLocks, this`trace, this`history, if lockName.Some? then EntryFrame(KeyOf(lockName.value, ReaderWriter)) else {}
      ensures r.Failure? <==> Assert.NotNullOrEmptyOrWhiteSpace("lockName", lockName).Fail?
      ensures r.Failure? ==> && r.error == Assert.NotNullOrEmptyOrWhiteSpace("lockName", lockName).error
                             && acquiredLocks == old(acquiredLocks) && unchanged(acquiredLocks.Values)
                             && Valid() && Recorded() && trace == old(trace) && history == old(history)
      ensures r.Success? ==> r.value.ReadHandle? && AcquiredBy(r.value, lockName.value, ReaderWriter)
    {
      var check := Assert.NotNullOrEmptyOrWhiteSpace("lockName", lockName);
      if check.Fail? {
        return Failure(check.error);
      }
      var h := AcquireAs(lockName.value, ReaderWriter, Read);
      r := Success(h);
    }

    /**
     * `acquireWriteLock`: validates the name, takes a reference on its reader/writer entry and
     * locks the write side through the entry's write decorator.
     */
    method AcquireWriteLock(lockName: Option<string>) returns (r: Result<Handle, Assert.IllegalArgumentException>)
      requires Valid() && Recorded()
      modifies this`acquiredLocks, this`trace, this`history, if lockName.Some? then EntryFrame(KeyOf(lockName.value, ReaderWriter)) else {}
      ensures r.Failure? <==> Assert.NotNullOrEmptyOrWhiteSpace("lockName", lockName).Fail?
      ensures r.Failure? ==> && r.error == Assert.NotNullOrEmptyOrWhiteSpace("lockName", lockName).error
                             && acquiredLocks == old(acquiredLocks) && unchanged(acquiredLocks.Values)
                             && Valid() && Recorded() && trace == old(trace) && history == old(history)
      ensures r.Success? ==> r.value.WriteHandle? && AcquiredBy(r.value, lockName.value, ReaderWriter)
    {
      var check := Assert.NotNullOrEmptyOrWhiteSpace("lockName", lockName);
      if check.Fail? {
        return Failure(check.error);
      }
      var h := AcquireAs(lockName.value, ReaderWriter, Write);
      r := Success(h);
    }

    /**
     * The count of every listed entry is the number of acquisitions minus the number of releases
     * of its key so far, and a key is listed exactly when that number is positive.
     */
    lemma CountsAreNetAcquisitions()
      requires Recorded()
      ensures forall k :: k in acquiredLocks <==> Net(history, k) > 0
      ensures forall k | k in acquiredLocks :: acquiredLocks[k].nReferences == Net(history, k)
    {
      ReplayCounts(history);
      forall k | k in acquiredLocks
        ensures acquiredLocks[k].nReferences == Net(history, k)
      {
        assert Table()[k].count == acquiredLocks[k].nReferences;
      }
    }

    /** When every acquisition so far has been released, the table is empty. */
    lemma BalancedHistoryLeavesEmpty()
      requires Recorded()
      requires forall k :: Net(history, k) == 0
      ensures acquiredLocks == map[]
    {
      BalancedLeavesEmpty(history);
      assert acquiredLocks.Keys == Table().Keys;
    }
  }

  /** `acquireCriticalSectionLock` on a name the validator accepts, with what a caller holding other locks needs to know. */
  method AcquireValidName(m: NamedLockManager, name: string) returns (h: Handle)
    requires m.Valid() && m.Recorded()
    requires Assert.NotNullOrEmptyOrWhiteSpace("lockName", Some(name)).Pass?
    modifies m`acquiredLocks, m`trace, m`history, m.EntryFrame(KeyOf(name, CriticalSection))
    ensures m.Valid() && m.Recorded()
    ensures m.Listed(h.Entry()) && h.Entry().Holds(h.LockMode()) > 0 && h.Entry().lockName.fullName == KeyOf(name, CriticalSection)
    ensures fresh(h.Entry()) || h.Entry() in old(m.EntryFrame(KeyOf(name, CriticalSection)))
    ensures m.acquiredLocks == old(m.acquiredLocks)[KeyOf(name, CriticalSection) := h.Entry()]
    ensures m.Table() == AcquireSpec(old(m.Table()), GenerateLockName(name, Suffix(CriticalSection)), CriticalSection)
    ensures m.history == old(m.history) + [AcquireOp(name, CriticalSection)]
  {
    var r := m.AcquireCriticalSectionLock(Some(name));
    h := r.value;
  }

  /** Putting a new entry under one key leaves every other key as it was. */
  lemma OtherKeyKept(before: map<string, NamedLock>, after: map<string, NamedLock>, key: string, e: NamedLock, other: string)
    requires after == before[key := e] && key != other
    ensures other in after <==> other in before
    ensures other in after ==> after[other] == before[other]
  {
  }

  /** An entry listed under its own key is not the entry an acquisition under another key may change. */
  lemma OutsideOtherFrame(m: NamedLockManager, e: NamedLock, key: string)
    requires m.Valid() && m.Listed(e) && e.lockName.fullName != key
    ensures e !in m.EntryFrame(key)
  {
  }

  /** The entry an acquisition under a listed entry's own key may change is that entry alone. */
  lemma OwnFrame(m: NamedLockManager, e: NamedLock)
    requires m.Listed(e)
    ensures m.EntryFrame(e.lockName.fullName) == {e}
  {
  }

  /** A second acquisition, under another key, leaves an entry listed earlier listed and untouched. */
  method AcquireBeside(m: NamedLockManager, ghost earlier: NamedLock, name: string) returns (h: Handle)
    requires m.Valid() && m.Recorded()
    requires Assert.NotNullOrEmptyOrWhiteSpace("lockName", Some(name)).Pass?
    requires m.Listed(earlier) && earlier.lockName.fullName != KeyOf(name, CriticalSection)
    modifies m`acquiredLocks, m`trace, m`history, m.EntryFrame(KeyOf(name, CriticalSection))
    ensures m.Valid() && m.Recorded()
    ensures m.Listed(h.Entry()) && h.Entry().Holds(h.LockMode()) > 0 && h.Entry().lockName.fullName == KeyOf(name, CriticalSection)
    ensures m.Listed(earlier) && unchanged(earlier)
    ensures fresh(h.Entry()) || h.Entry() in old(m.EntryFrame(KeyOf(name, CriticalSection)))
    ensures m.Table() == AcquireSpec(old(m.Table()), GenerateLockName(name, Suffix(CriticalSection)), CriticalSection)
    ensures m.history == old(m.history) + [AcquireOp(name, CriticalSection)]
  {
    ghost var key, ek, before := KeyOf(name, CriticalSection), earlier.lockName.fullName, m.acquiredLocks;
    OutsideOtherFrame(m, earlier, key);
    h := AcquireValidName(m, name);
    OtherKeyKept(before, m.acquiredLocks, key, h.Entry(), ek);
  }

  /** The first half of `HoldTwoNames`: both names are acquired and both handles are held, over distinct entries. */
  method AcquireTwoNames(m: NamedLockManager, a: string, b: string) returns (ha: Handle, hb: Handle)
    requires m.Valid() && m.Recorded()
    requires Assert.NotNullOrEmptyOrWhiteSpace("lockName", Some(a)).Pass?
    requires Assert.NotNullOrEmptyOrWhiteSpace("lockName", Some(b)).Pass?
    requires KeyOf(a, CriticalSection) != KeyOf(b, CriticalSection)
    modifies m`acquiredLocks, m`trace, m`history
    modifies m.EntryFrame(KeyOf(a, CriticalSection)), m.EntryFrame(KeyOf(b, CriticalSection))
    ensures m.Valid() && m.Recorded()
    ensures m.Listed(ha.Entry()) && ha.Entry().Holds(ha.LockMode()) > 0 && ha.Entry().lockName.fullName == KeyOf(a, CriticalSection)
    ensures m.Listed(hb.Entry()) && hb.Entry().Holds(hb.LockMode()) > 0 && hb.Entry().lockName.fullName == KeyOf(b, CriticalSection)
    ensures m.Table() == AcquireSpec(AcquireSpec(old(m.Table()), GenerateLockName(a, Suffix(CriticalSection)), CriticalSection),
                                     GenerateLockName(b, Suffix(CriticalSection)), CriticalSection)
    ensures m.history == old(m.history) + [AcquireOp(a, CriticalSection), AcquireOp(b, CriticalSection)]
    ensures fresh(ha.Entry()) || ha.Entry() in old(m.EntryFrame(KeyOf(a, CriticalSection)))
    ensures fresh(hb.Entry()) || hb.Entry() in old(m.EntryFrame(KeyOf(b, CriticalSection)))
  {
    ghost var ka, kb := KeyOf(a, CriticalSection), KeyOf(b, CriticalSection);
    ghost var before := m.acquiredLocks;
    ha := AcquireValidName(m, a);
    ghost var ea, h1 := ha.Entry(), m.history;
    ghost var held := ea.Holds(ha.LockMode());
    OtherKeyKept(before, m.acquiredLocks, ka, ea, kb);
    hb := AcquireBeside(m, ea, b);
    assert ea.Holds(ha.LockMode()) == held;
    AppendPair(old(m.history), h1, m.history, AcquireOp(a, CriticalSection), AcquireOp(b, CriticalSection));
  }

  /** The second half of `HoldTwoNames`: the two handles, over distinct listed entries, are closed in turn. */
  method CloseTwoNames(m: NamedLockManager, ha: Handle, hb: Handle)
    requires m.Valid() && m.Recorded()
    requires m.Listed(ha.Entry()) && ha.Entry().Holds(ha.LockMode()) > 0
    requires m.Listed(hb.Entry()) && hb.Entry().Holds(hb.LockMode()) > 0
    requires ha.Entry().lockName.fullName != hb.Entry().lockName.fullName
    modifies m`acquiredLocks, m`trace, m`history, ha.Entry(), hb.Entry()
    ensures m.Valid() && m.Recorded()
    ensures m.Table() == ReleaseSpec(ReleaseSpec(old(m.Table()), hb.Entry().lockName.fullName), ha.Entry().lockName.fullName)
    ensures m.history == old(m.history) + [ReleaseOp(hb.Entry().lockName.fullName), ReleaseOp(ha.Entry().lockName.fullName)]
  {
    m.Close(hb);
    ghost var h1 := m.history;
    assert m.Listed(ha.Entry());
    m.Close(ha);
  }

  /**
   * A caller that holds two named critical sections at once: it acquires `a`, then `b`, closes
   * `b` and then `a`. Both closes are allowed, and the registry ends as it began.
   */
  method HoldTwoNames(m: NamedLockManager, a: string, b: string)
    requires m.Valid() && m.Recorded()
    requires Assert.NotNullOrEmptyOrWhiteSpace("lockName", Some(a)).Pass?
    requires Assert.NotNullOrEmptyOrWhiteSpace("lockName", Some(b)).Pass?
    requires ToLower(a) != ToLower(b)
    modifies m`acquiredLocks, m`trace, m`history
    modifies m.EntryFrame(KeyOf(a, CriticalSection)), m.EntryFrame(KeyOf(b, CriticalSection))
    ensures m.Valid() && m.Recorded()
    ensures m.Table() == old(m.Table())
    ensures m.history == old(m.history) + [AcquireOp(a, CriticalSection), AcquireOp(b, CriticalSection),
                                          ReleaseOp(KeyOf(b, CriticalSection)), ReleaseOp(KeyOf(a, CriticalSection))]
  {
    ghost var t0, h0 := m.Table(), m.history;
    ghost var ka, kb := KeyOf(a, CriticalSection), KeyOf(b, CriticalSection);
    SameKindKeysEqualIff(a, b, CriticalSection);
    m.TableMatches();
    var ha, hb := AcquireTwoNames(m, a, b);
    ghost var h2 := m.history;
    CloseTwoNames(m, ha, hb);
    ghost var t1 := AcquireSpec(t0, GenerateLockName(a, Suffix(CriticalSection)), CriticalSection);
    AcquirePreservesInvariant(t0, a, CriticalSection);
    AcquireReleaseRoundTrip(t1, b, CriticalSection);
    AcquireReleaseRoundTrip(t0, a, CriticalSection);
    AppendPairs(h0, h2, m.history, AcquireOp(a, CriticalSection), AcquireOp(b, CriticalSection), ReleaseOp(kb), ReleaseOp(ka));
  }

  /** A second acquirer whose name reaches the key of a handle already listed gets back that very handle, with one more reference and one more hold. */
  method AcquireSameKey(m: NamedLockManager, h1: Handle, other: string) returns (h2: Handle)
    requires m.Valid() && m.Recorded()
    requires Assert.NotNullOrEmptyOrWhiteSpace("lockName", Some(other)).Pass?
    requires h1.CriticalSectionHandle? && m.Listed(h1.Entry()) && h1.Entry().lockName.fullName == KeyOf(other, CriticalSection)
    modifies m`acquiredLocks, m`trace, m`history, m.EntryFrame(KeyOf(other, CriticalSection))
    ensures m.Valid() && m.Recorded()
    ensures h2 == h1 && m.acquiredLocks == old(m.acquiredLocks)
    ensures h1.Entry().nReferences == old(h1.Entry().nReferences) + 1
    ensures h1.Entry().Holds(Exclusive) == old(h1.Entry().Holds(Exclusive)) + 1
    ensures m.Table() == AcquireSpec(old(m.Table()), GenerateLockName(other, Suffix(CriticalSection)), CriticalSection)
    ensures m.history == old(m.history) + [AcquireOp(other, CriticalSection)]
  {
    ghost var e, key := h1.Entry(), KeyOf(other, CriticalSection);
    assert m.Counts(e);
    ghost var n0, x0 := e.nReferences, e.Holds(Exclusive);
    var r := m.AcquireCriticalSectionLock(Some(other));
    h2 := r.value;
    assert h2.Entry() == e && e.Holds(Exclusive) == x0 + 1;
    assert m.Counts(e);
  }

  /** A new registry and a first acquisition on it: one entry, one reference, reporting the name given. */
  method OpenFirst(name: string) returns (m: NamedLockManager, h: Handle)
    requires Assert.NotNullOrEmptyOrWhiteSpace("lockName", Some(name)).Pass?
    ensures fresh(m) && m.Valid() && m.Recorded()
    ensures h.CriticalSectionHandle? && fresh(h.Entry()) && h.GetLockName() == name
    ensures h.Entry().lockName.fullName == KeyOf(name, CriticalSection)
    ensures m.acquiredLocks == map[h.Entry().lockName.fullName := h.Entry()]
    ensures h.Entry().nReferences == 1 && h.Entry().Holds(Exclusive) == 1
  {
    m := new NamedLockManager();
    var r := m.AcquireCriticalSectionLock(Some(name));
    h := r.value;
    assert m.Counts(h.Entry());
    assert m.Table()[KeyOf(name, CriticalSection)].displayName == name;
  }

  /** The opening half of `NestedAcquisition`: on a new registry, both acquisitions land on one entry with two references. */
  method OpenNested(name: string, other: string) returns (m: NamedLockManager, h1: Handle, h2: Handle)
    requires Assert.NotNullOrEmptyOrWhiteSpace("lockName", Some(name)).Pass?
    requires Assert.NotNullOrEmptyOrWhiteSpace("lockName", Some(other)).Pass?
    requires KeyOf(other, CriticalSection) == KeyOf(name, CriticalSection)
    ensures fresh(m) && m.Valid() && m.Recorded()
    ensures h2 == h1 && h1.GetLockName() == name && m.Listed(h1.Entry()) && fresh(h1.Entry())
    ensures m.acquiredLocks == map[h1.Entry().lockName.fullName := h1.Entry()]
    ensures h1.CriticalSectionHandle? && h1.Entry().nReferences == 2 && h1.Entry().Holds(Exclusive) == 2
  {
    m, h1 := OpenFirst(name);
    ghost var e := h1.Entry();
    OwnFrame(m, e);
    h2 := AcquireSameKey(m, h1, other);
    assert e.nReferences == 2 && e.Holds(Exclusive) == 2;
  }

  /** The closing half of `NestedAcquisition`: the inner close keeps the entry, the outer one empties the registry. */
  method CloseNested(m: NamedLockManager, h: Handle)
    requires m.Valid() && m.Recorded() && m.Listed(h.Entry())
    requires m.acquiredLocks == map[h.Entry().lockName.fullName := h.Entry()]
    requires h.CriticalSectionHandle? && h.Entry().nReferences == 2 && h.Entry().Holds(Exclusive) == 2
    modifies m`acquiredLocks, m`trace, m`history, h.Entry()
    ensures m.Valid() && m.Recorded() && m.acquiredLocks == map[]
  {
    assert h.LockMode() == Exclusive;
    m.Close(h);
    m.Close(h);
  }

  /**
   * The tests' nested acquisition on a new registry: a name, then a variant with the same lower-cased
   * form. Both handles report the first name and are the same handle; closing both empties the registry.
   */
  method NestedAcquisition(name: string, other: string) returns (first: string, second: string, same: bool, emptyAfter: bool)
    requires Assert.NotNullOrEmptyOrWhiteSpace("lockName", Some(name)).Pass?
    requires Assert.NotNullOrEmptyOrWhiteSpace("lockName", Some(other)).Pass?
    requires ToLower(other) == ToLower(name)
    ensures first == name && second == name && same && emptyAfter
  {
    SameKindKeysEqualIff(name, other, CriticalSection);
    var m, h1, h2 := OpenNested(name, other);
    first, second, same := h1.GetLockName(), h2.GetLockName(), h2 == h1;
    CloseNested(m, h2);
    emptyAfter := m.acquiredLocks == map[];
  }
}
