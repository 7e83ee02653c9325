/** A lock on one key of a table (`LockEntry`): the object that holds it,
    the sequence number of the request that took it, the table and key it
    covers, and whether it is dropped when its holder times out. The entry is
    a value: it is filled once by the constructor and only read afterwards. */
module LockEntries {
  import opened Bytes

  /** The lock holder, compared with `Object.equals`; modelled by identity. */
  type LockObject = nat

  datatype LockEntry = LockEntry(
    lockObject: LockObject,
    sequenceNumber: Short,
    table: string,
    key: string,
    deleteOnTimeout: bool)

  /** The constructor: every argument is kept except `version`. */
  function NewLockEntry(lockObject: LockObject, sequenceNumber: Short, table: string, key: string,
                        version: int, deleteOnTimeout: bool): (e: LockEntry)
    ensures e.lockObject == lockObject && e.sequenceNumber == sequenceNumber
    ensures e.table == table && e.key == key && e.deleteOnTimeout == deleteOnTimeout
  {
    LockEntry(lockObject, sequenceNumber, table, key, deleteOnTimeout)
  }

  /** `tableAndKeyMatches`. */
  predicate TableAndKeyMatches(e: LockEntry, table: string, key: string)
  {
    e.table == table && e.key == key
  }

  /** `lockObjectAndSequenceMatches`. */
  predicate LockObjectAndSequenceMatches(e: LockEntry, lockObject: LockObject, sequence: Short)
  {
    e.lockObject == lockObject && e.sequenceNumber == sequence
  }

  /** Two entries built from the same arguments are equal whatever versions
      they were given: the version is not part of the entry. */
  lemma VersionIsDiscarded(lockObject: LockObject, sequenceNumber: Short, table: string, key: string,
                           v1: int, v2: int, deleteOnTimeout: bool)
    ensures NewLockEntry(lockObject, sequenceNumber, table, key, v1, deleteOnTimeout)
         == NewLockEntry(lockObject, sequenceNumber, table, key, v2, deleteOnTimeout)
  {
  }

  /** A new entry matches exactly the table and key, and exactly the holder
      and sequence number, it was built with. */
  lemma NewEntryMatches(lockObject: LockObject, sequenceNumber: Short, table: string, key: string,
                        version: int, deleteOnTimeout: bool,
                        otherObject: LockObject, otherSequence: Short, otherTable: string, otherKey: string)
    ensures var e := NewLockEntry(lockObject, sequenceNumber, table, key, version, deleteOnTimeout);
            (TableAndKeyMatches(e, otherTable, otherKey) <==> otherTable == table && otherKey == key) &&
            (LockObjectAndSequenceMatches(e, otherObject, otherSequence) <==>
               otherObject == lockObject && otherSequence == sequenceNumber)
  {
  }

  /** The two matches are independent: an entry can match a holder and
      sequence number while a different key is asked for, and the other way
      round, so a lock is found by either pair alone. */
  lemma MatchesAreIndependent(e: LockEntry, otherKey: string, otherObject: LockObject)
    requires otherKey != e.key && otherObject != e.lockObject
    ensures LockObjectAndSequenceMatches(e, e.lockObject, e.sequenceNumber) && !TableAndKeyMatches(e, e.table, otherKey)
    ensures TableAndKeyMatches(e, e.table, e.key) && !LockObjectAndSequenceMatches(e, otherObject, e.sequenceNumber)
  {
  }
}
