# Named locks and close-once resources, in Dafny

This project models the core of the `java-reusables` library in Dafny: the registry of named locks
(`my.java.util.concurrent.locks.NamedLockManager`), the argument validators (`my.java.util.Assert`)
and the one-slot resource holder with its close-once wrapper
(`my.java.resourcemanagement.ResourceHolder` and
`AbstractAutoCloseableResourceThrowingCheckedExceptionOnClose`).

The files are:

- `wrappers.dfy`: `Option` stands for a Java reference that may be `null`. `Outcome` and `Result`
  stand for a method that returns normally or throws.
- `java_strings.dfy`: the `String` operations the library and its tests use. These are `toLowerCase`,
  `toUpperCase` (both ASCII) and `trim`.
- `assert.dfy`: `notNull` and `notNullOrEmptyOrWhiteSpace` as pure functions that return the
  exception they would throw.
- `named_lock_manager.dfy`: the registry, in three layers.
  - **Keys.** `GenerateLockName` and the lemmas about the keys it derives.
  - **The table as a value.** `AcquireSpec` is what `getNamedLock` does to the table and
    `ReleaseSpec` is what `decrementReference` does. `Replay` and `Net` are the theory of a run of
    such calls.
  - **The classes.** `NamedLockManager` is a class whose field `acquiredLocks` is a
    `map<string, NamedLock>` that its methods reassign. `NamedLock` is a class whose `nReferences`
    is updated in place.
  - **How the classes and the values connect.** Each method ties the new table to
    `AcquireSpec`/`ReleaseSpec` of the old one. The ghost `history` records the run of calls, and
    the invariant `Recorded()` says the table is `Replay(history)`.
  - **Nested acquisitions on the class.** `NestedAcquisition` replays the tests' nested use of
    one name and a case variant of it on a new registry. `HoldTwoNames` acquires two names with
    different keys and closes them in reverse order. Each acquisition may change only the entry
    already under its key, so an earlier handle stays held while another name is acquired.
  - **The domain lock.** It is opaque. Its `lock()`/`unlock()` calls are events in the ghost
    `trace`. Per entry, ghost counters track how often each face is held and how many references
    are waiting. As a result, `Valid()` says a count is exactly the number of references in use.
- `resource_management.dfy`: `ResourceHolder` as a class with one `Option` field. The close-once
  wrapper is a class over a holder. Its `Close` is specified by the pure `CloseSpec`.

The subclasses `NamedCriticalSectionLock` and `NamedReadWriteLock` are one class `NamedLock`, told
apart by its `kind`. The read and write decorators are the `ReadHandle` and `WriteHandle` variants
of `Handle`, which hold their parent entry. `Handle.Entry()` is their forwarding of
`incrementReference`, `decrementReference`, `close` and `getLockName` to the parent. Because a
`Handle` is a value, a second acquirer of the same name gets back a handle equal to the first,
just as the Java code hands back the same object.

## Model

| member | source | states |
|---|---|---|
| JavaStrings.ToLower | src/main/java/my/java/util/concurrent/locks/NamedLockManager.java:167 | `toLowerCase()` keeps the length and lower-cases every character (ASCII letters). |
| JavaStrings.ToUpper | src/test/java/my/java/util/concurrent/locks/NamedLockManagerUnitTests.java:66 | `toUpperCase()`, as the tests use it, keeps the length and upper-cases every character. |
| JavaStrings.LowerOfUpper | src/test/java/my/java/util/concurrent/locks/NamedLockManagerUnitTests.java:66-70 | Lower-casing the upper-cased name gives the lower-cased name, which is why the tests' upper-case acquirers land on the same key. |
| JavaStrings.TrimStart | src/main/java/my/java/util/Assert.java:45 | The leading part `trim()` drops is exactly a run of characters at or below U+0020, and what remains does not start with one. |
| JavaStrings.TrimEnd | src/main/java/my/java/util/Assert.java:45 | The trailing part `trim()` drops is exactly a run of characters at or below U+0020, and what remains does not end with one. |
| JavaStrings.Trim | src/main/java/my/java/util/Assert.java:45 | No ensures of its own. `trim()` is `TrimEnd` after `TrimStart`, and those two and `TrimEmptyIff` state what it keeps and drops. |
| JavaStrings.TrimEmptyIff | src/main/java/my/java/util/Assert.java:45 | `trim()` yields the empty string if and only if every character is at or below U+0020. |
| Assert.NotNull | src/main/java/my/java/util/Assert.java:27-33 | Fails if and only if the value is null, with `IllegalArgumentException("@" + name + " cannot be null.")`. Otherwise it passes with no effect. |
| Assert.NotNullOrEmptyOrWhiteSpace | src/main/java/my/java/util/Assert.java:43-49 | Passes if and only if the value is non-null and holds a character above U+0020. Otherwise it fails with `IllegalArgumentException("@" + name + " cannot be null or empty.")`. |
| NamedLocks.GenerateLockName | src/main/java/my/java/util/concurrent/locks/NamedLockManager.java:165-168 | No ensures of its own. `KeyShape` states the shape of the pair it builds, and `SameKindKeysEqualIff` when two names share a key. |
| NamedLocks.KeyShape | src/main/java/my/java/util/concurrent/locks/NamedLockManager.java:165-168 | The display name is kept as given. The key is the lower-cased name, then `_`, the suffix and `_lock`. |
| NamedLocks.SameKindKeysEqualIff | src/main/java/my/java/util/concurrent/locks/NamedLockManager.java:165-168 | Two names of the same kind get equal keys if and only if their lower-cased forms are equal. |
| NamedLocks.KindsNeverCollide | src/main/java/my/java/util/concurrent/locks/NamedLockManager.java:57 | A `criticalSection` key never equals a `readerWriter` key, whatever the two names. |
| NamedLocks.UpperCaseVariantSharesKey | src/test/java/my/java/util/concurrent/locks/NamedLockManagerUnitTests.java:66 | A name and its upper-cased variant reach the same key. |
| NamedLocks.AcquireSpec | src/main/java/my/java/util/concurrent/locks/NamedLockManager.java:144-163 | No ensures of its own. It is `getNamedLock` on the table as a value. `AcquirePreservesInvariant`, `AcquireReleaseRoundTrip` and `CreatorKeepsDisplayName` state its properties, and `GetNamedLock` ties the class to it. |
| NamedLocks.ReleaseSpec | src/main/java/my/java/util/concurrent/locks/NamedLockManager.java:213-222 | No ensures of its own. It is `decrementReference` on the table as a value. `ReleasePreservesInvariant` and `ReleaseRemovesExactlyAtZero` state its properties, and `DecrementReference` ties the class to it. |
| NamedLocks.AcquirePreservesInvariant | src/main/java/my/java/util/concurrent/locks/NamedLockManager.java:144-163 | An acquisition keeps two facts: every entry has count at least 1, and every entry sits under the key derived from its display name and kind. |
| NamedLocks.ReleasePreservesInvariant | src/main/java/my/java/util/concurrent/locks/NamedLockManager.java:213-222 | A release keeps the same two facts. |
| NamedLocks.ReleaseRemovesExactlyAtZero | src/main/java/my/java/util/concurrent/locks/NamedLockManager.java:213-222 | A release lowers a present key's count by 1. The key is removed if and only if the count was 1. Every other key keeps its entry. |
| NamedLocks.AcquireReleaseRoundTrip | src/main/java/my/java/util/concurrent/locks/NamedLockManager.java:205-222 | An acquisition followed by the release of its key gives back exactly the table it started from. |
| NamedLocks.CreatorKeepsDisplayName | src/main/java/my/java/util/concurrent/locks/NamedLockManager.java:189-192 | After a creator and a later acquirer whose name has the same lower-cased form, the entry has count 2 and keeps the creator's display name. |
| NamedLocks.NestedAcquisitionsLeaveEmpty | src/test/java/my/java/util/concurrent/locks/NamedLockManagerUnitTests.java:61-74 | The tests' nested acquisition of a name and its upper-cased variant gives one entry with count 2 under the first name. The first release keeps it with count 1. The second release empties the table. |
| NamedLocks.ReplayCounts | src/main/java/my/java/util/concurrent/locks/NamedLockManager.java:149-159 | Start from an empty table and run calls in which no key is over-released. A key is then present if and only if its acquisitions outnumber its releases, and its count is that difference. Every count is at least 1. |
| NamedLocks.BalancedLeavesEmpty | src/main/java/my/java/util/concurrent/locks/NamedLockManager.java:217-219 | Such a run that releases every acquisition it made leaves the table empty. |
| NamedLocks.Handle.Entry | src/main/java/my/java/util/concurrent/locks/NamedLockManager.java:372-394 | No ensures of its own. It is the decorators' forwarding to the parent entry, which `Close` and `AcquireAs` use. |
| NamedLocks.Handle.GetLockName | src/main/java/my/java/util/concurrent/locks/NamedLockManager.java:189-370 | No ensures of its own. It is `getLockName()` (lines 189-192), forwarded by the decorators (lines 366-370). `AcquireAs` states that it reports the creator's display name. |
| NamedLocks.NamedLock.constructor | src/main/java/my/java/util/concurrent/locks/NamedLockManager.java:181-184 | A new entry keeps its `LockName` and kind. Its count starts at 1 (the field initialiser at line 226), for the acquirer that is about to lock. |
| NamedLocks.NamedLockManager.constructor | src/main/java/my/java/util/concurrent/locks/NamedLockManager.java:171-172 | A new registry has an empty table and satisfies the invariant. |
| NamedLocks.NamedLockManager.TableMatches | src/main/java/my/java/util/concurrent/locks/NamedLockManager.java:144-163 | The registry invariant implies the table invariant: every listed entry has count at least 1 and sits under its derived key. |
| NamedLocks.NamedLockManager.IncrementReference | src/main/java/my/java/util/concurrent/locks/NamedLockManager.java:205-211 | The listed entry's count goes up by 1, the table changes as `AcquireSpec` says, the map keeps its keys, and an `Incremented` event is recorded. |
| NamedLocks.NamedLockManager.AddEntry | src/main/java/my/java/util/concurrent/locks/NamedLockManager.java:150-155 | The factory branch: a fresh entry with count 1 goes under the absent key, and nothing else changes. |
| NamedLocks.NamedLockManager.GetNamedLock | src/main/java/my/java/util/concurrent/locks/NamedLockManager.java:144-163 | If the key is absent, the factory runs once and the new entry has count 1. If it is present, that same entry is returned and its count goes up by 1. The map is updated only at that key, and only the entry already under it may change. The table is `AcquireSpec` of the old one. The history gains the acquisition. |
| NamedLocks.NamedLockManager.GetNamedReadWriteLock | src/main/java/my/java/util/concurrent/locks/NamedLockManager.java:128-141 | The same, for the `readerWriter` key of the name. The entry returned is a reader/writer entry. |
| NamedLocks.NamedLockManager.AcquireLock | src/main/java/my/java/util/concurrent/locks/NamedLockManager.java:250-343 | `lock()` on the handle's face turns one waiting reference into a hold. That face is the mutex (lines 250-253), or the read or write face of the parent's lock for the decorators (lines 339-343). The count and the table do not change, and a `Locked` event is recorded. |
| NamedLocks.NamedLockManager.Unlock | src/main/java/my/java/util/concurrent/locks/NamedLockManager.java:244-348 | `unlock()` on the handle's face (the mutex at line 244, or the decorator's read or write face at line 348) gives one hold back, and the reference stays until the decrement. The table does not change, and an `Unlocked` event is recorded. |
| NamedLocks.NamedLockManager.DecrementReference | src/main/java/my/java/util/concurrent/locks/NamedLockManager.java:213-222 | The count goes down by 1. The key is removed if and only if the old count was 1. Otherwise the map is unchanged. The table is `ReleaseSpec` of the old one, and the history gains the release. |
| NamedLocks.NamedLockManager.Close | src/main/java/my/java/util/concurrent/locks/NamedLockManager.java:242-376 | `unlock()` comes first, then `decrementReference` on the handle's entry (lines 242-247). For read and write handles the decrement falls on the parent entry, through the decorator's forwarding (lines 346-351 and 372-376). The trace gains `Unlocked` then `Decremented`, and the table is `ReleaseSpec` of the old one. |
| NamedLocks.NamedLockManager.AcquireAs | src/main/java/my/java/util/concurrent/locks/NamedLockManager.java:57-69 | The reference is taken (factory or increment) before `lock()`. The handle reports the creator's display name. The table is `AcquireSpec` of the old one. Only the entry already under the key may change: its lock face gains one hold, and its other faces and waiting count keep their values. A new entry holds only that face, once. |
| NamedLocks.NamedLockManager.AcquireCriticalSectionLock | src/main/java/my/java/util/concurrent/locks/NamedLockManager.java:53-72 | A null or blank name is refused with the validator's exception, and nothing changes. Otherwise the result is a critical-section handle acquired as `AcquireAs` states. |
| NamedLocks.NamedLockManager.AcquireReadLock | src/main/java/my/java/util/concurrent/locks/NamedLockManager.java:91-98 | The same, for the read handle of the name's reader/writer entry (lines 276-281). |
| NamedLocks.NamedLockManager.AcquireWriteLock | src/main/java/my/java/util/concurrent/locks/NamedLockManager.java:117-124 | The same, for the write handle of the name's reader/writer entry (lines 286-291). |
| NamedLocks.NamedLockManager.CountsAreNetAcquisitions | src/main/java/my/java/util/concurrent/locks/NamedLockManager.java:205-222 | A key is listed if and only if its acquisitions so far outnumber its releases. Its entry's count is that difference. |
| NamedLocks.NamedLockManager.BalancedHistoryLeavesEmpty | src/main/java/my/java/util/concurrent/locks/NamedLockManager.java:217-219 | Once every acquisition has been released, the registry's map is empty. |
| NamedLocks.AcquireValidName | src/main/java/my/java/util/concurrent/locks/NamedLockManager.java:53-72 | `acquireCriticalSectionLock` on a name the validator accepts returns a held, listed handle under the name's key. The map changes only at that key, the entry is new or the one listed there, and the table and history advance by one acquisition. |
| NamedLocks.AcquireBeside | src/main/java/my/java/util/concurrent/locks/NamedLockManager.java:144-163 | A second acquisition under another key leaves an entry listed earlier still listed, with every field (count, holds, waiting) unchanged. The new handle is held and listed, and the table and history advance by one acquisition. |
| NamedLocks.AcquireTwoNames | src/main/java/my/java/util/concurrent/locks/NamedLockManager.java:53-72 | Two names with different keys, acquired one after the other, are both held at once over distinct entries. The table is two `AcquireSpec` steps from the old one. |
| NamedLocks.CloseTwoNames | src/main/java/my/java/util/concurrent/locks/NamedLockManager.java:242-247 | Closing the second handle and then the first keeps the invariant. The table is two `ReleaseSpec` steps from the old one, and the history gains both releases. |
| NamedLocks.HoldTwoNames | src/main/java/my/java/util/concurrent/locks/NamedLockManager.java:53-72 | Two different names are acquired and then closed in reverse order, as nested try-with-resources blocks do. Afterwards the table is what it was before. |
| NamedLocks.AcquireSameKey | src/main/java/my/java/util/concurrent/locks/NamedLockManager.java:144-163 | A second acquirer whose name reaches a listed handle's key gets back that very handle. The map keeps its keys and entries, the entry gains one reference and one exclusive hold, and the table and history advance by one acquisition. |
| NamedLocks.OpenFirst | src/main/java/my/java/util/concurrent/locks/NamedLockManager.java:53-72 | On a new registry, a first acquisition gives one entry under the name's key, with one reference and one hold, reporting the name as given. |
| NamedLocks.OpenNested | src/test/java/my/java/util/concurrent/locks/NamedLockManagerUnitTests.java:55-69 | After the first acquisition and one by a name with the same key, both handles are the same handle. It reports the first name, and its entry is the only one, with two references and two holds. |
| NamedLocks.CloseNested | src/test/java/my/java/util/concurrent/locks/NamedLockManagerUnitTests.java:70-74 | With that one entry held twice, the inner close keeps it and the outer close empties the registry. |
| NamedLocks.NestedAcquisition | src/test/java/my/java/util/concurrent/locks/NamedLockManagerUnitTests.java:53-74 | The tests' nested try-with-resources on a new registry. A name, then a variant with the same lower-cased form: both handles report the first name, they are the same handle, and after both closes the registry's map is empty. |
| ResourceManagement.ResourceHolder.constructor | src/main/java/my/java/resourcemanagement/ResourceHolder.java:24-27 | The holder holds the argument, which may be null. |
| ResourceManagement.ResourceHolder.Get | src/main/java/my/java/resourcemanagement/ResourceHolder.java:32-35 | Returns the held value and changes nothing. |
| ResourceManagement.ResourceHolder.Reset | src/main/java/my/java/resourcemanagement/ResourceHolder.java:44-51 | Returns the value held before, and afterwards holds the new one. |
| ResourceManagement.ResourceHolder.Release | src/main/java/my/java/resourcemanagement/ResourceHolder.java:58-61 | Returns the value held before and leaves the slot null. |
| ResourceManagement.CloseSpec | src/main/java/my/java/resourcemanagement/AbstractAutoCloseableResourceThrowingCheckedExceptionOnClose.java:37-40 | No ensures of its own. It is `close()` on a slot and an outcome of `doClose`, and the three lemmas below state its properties. |
| ResourceManagement.CloseRunsDoCloseIffHeld | src/main/java/my/java/resourcemanagement/AbstractAutoCloseableResourceThrowingCheckedExceptionOnClose.java:37-39 | `doClose` runs if and only if the slot is non-null. |
| ResourceManagement.CloseClearsUnlessDoCloseFails | src/main/java/my/java/resourcemanagement/AbstractAutoCloseableResourceThrowingCheckedExceptionOnClose.java:37-41 | A close that returns normally leaves the slot null. A close that throws passes on `doClose`'s exception and keeps the resource. |
| ResourceManagement.CloseIsIdempotent | src/main/java/my/java/resourcemanagement/AbstractAutoCloseableResourceThrowingCheckedExceptionOnClose.java:37 | After a close that returned normally, a second close runs nothing, returns normally and keeps the slot null. |
| ResourceManagement.AutoCloseableResource.constructor | src/main/java/my/java/resourcemanagement/AbstractAutoCloseableResourceThrowingCheckedExceptionOnClose.java:29-32 | The new wrapper holds the constructor's resource, and `doClose` has not run. |
| ResourceManagement.AutoCloseableResource.Get | src/main/java/my/java/resourcemanagement/ResourceHolder.java:32-35 | Before any close it returns the constructor's resource. It changes nothing. |
| ResourceManagement.AutoCloseableResource.Close | src/main/java/my/java/resourcemanagement/AbstractAutoCloseableResourceThrowingCheckedExceptionOnClose.java:35-42 | The new slot, the outcome and the number of `doClose` invocations (one if the slot was non-null, none otherwise) are those `CloseSpec` gives. |

## Left out

- Domain lock semantics. `ReentrantLock` and `ReentrantReadWriteLock` are JDK primitives, so
  blocking, reentrancy and reader/writer exclusion are not modelled. `lock()` and `unlock()` are
  events in a ghost trace.
- `NamedLocks.NamedLockManager.Unlock`: requires the handle's face to be held. So does `Close`. An
  `unlock()` without a hold throws `IllegalMonitorStateException` in Java, which is not modelled.
- `NamedLocks.NamedLockManager.AcquireLock`: requires a waiting reference. It returns at once
  instead of blocking until the lock is free.
- Thread interleaving. Each `synchronized (syncObject)` block is one method run to completion. The
  code between the blocks runs without interference. This covers the reference step in
  `getNamedLock`, the `lock()` call, and the `unlock()` before `decrementReference`.
- The no-op `NamedReadWriteLock.acquireLock` (NamedLockManager.java:294-298). No entry point calls
  it, because they lock through the decorators. `Handle.Fits()` excludes a critical-section handle
  over a reader/writer entry, so the model has no path that reaches it.
- The `nReferences` that `NamedLockDecorator` inherits (NamedLockManager.java:226, 357-364).
  - It is never read or updated, because the decorator forwards `incrementReference` and
    `decrementReference` to its parent.
  - The model has only the parent's count.
- The `NamedLockFactory` objects. Each is replaced by the `NamedLock` constructor for the entry's
  kind: `CriticalSection` stands for `new NamedCriticalSectionLock(..., new ReentrantLock())` and
  `ReaderWriter` for `new NamedReadWriteLock(..., new ReentrantReadWriteLock())`.
- The generic unchecked cast in `getNamedLock` (NamedLockManager.java:162). It is type-level only.
- `NamedLocks.NamedLock.constructor`: `nReferences` is an unbounded `int`, not an `AtomicLong`. The
  64-bit wrap-around after 2^63 outstanding references is not modelled. The atomicity of `AtomicLong`
  adds nothing, because it is only updated under the monitor.
- `JavaStrings.ToLower`: maps only ASCII letters and ignores the default locale of
  `String.toLowerCase()`. `ToUpper` is ASCII-only in the same way.
- `JavaStrings.TrimStart`: a Dafny `char` is a Unicode scalar value, not a UTF-16 code unit.
  A supplementary character is one Dafny `char` but two Java `char`s, and a lone surrogate
  cannot be written at all. `trim()` gives the same result either way, because every character
  it drops is at or below U+0020. Lengths differ, though: `KeyShape`'s `|fullName|` counts scalar
  values where Java's `length()` counts code units.
- `Assert.NullMessage` and `Assert.BlankMessage` take the argument name as a `string`, which
  cannot be null. Java's `String.format` would print a null name as `"null"`, and the model cannot
  say that. Every caller in the core passes the literal `"lockName"`.
- Inheritance. `AbstractAutoCloseableResourceThrowingCheckedExceptionOnClose` extends
  `ResourceHolder`, while `AutoCloseableResource` owns a `holder` instead. Its `get`, `reset` and
  `release` are the holder's.
- `ResourceManagement.AutoCloseableResource.Close`: the abstract `doClose` is a parameter saying how
  it would end. Whatever a subclass's `doClose` does besides is not modelled.
- `AutoCloseableLock`, `ReaderWriterLock`, `AutoCloseableContext` and `AbstractAutoCloseableResource`
  are thin wrappers over library calls. They are not part of this model.
- The unit tests' multi-threaded configurations and their polling of thread states. These cannot be
  modelled without a scheduler.
