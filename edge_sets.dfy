/**
  The two statements the store issues against tables whose primary key is
  the whole row (`post_likes`, `follows`, `bookmarks`):
  `INSERT IGNORE INTO t VALUES (k)` and `DELETE FROM t WHERE <key> = k`.
 */
module EdgeSets {

  /** `INSERT IGNORE`: afterwards `key` is present; a duplicate is silently skipped. */
  function InsertIgnore<T(!new)>(table: set<T>, key: T): (r: set<T>)
    ensures key in r
    ensures forall x :: x != key ==> (x in r <==> x in table)
  {
    table + {key}
  }

  /** `DELETE ... WHERE` on the full key: afterwards `key` is absent, nothing else goes. */
  function DeleteKey<T(!new)>(table: set<T>, key: T): (r: set<T>)
    ensures key !in r
    ensures forall x :: x != key ==> (x in r <==> x in table)
  {
    table - {key}
  }

  /** Inserting the same key twice leaves the table as inserting it once. */
  lemma InsertIgnoreIdempotent<T(!new)>(table: set<T>, key: T)
    ensures InsertIgnore(InsertIgnore(table, key), key) == InsertIgnore(table, key)
  {
  }

  /** Inserting a key already present changes nothing. */
  lemma InsertIgnorePresent<T(!new)>(table: set<T>, key: T)
    requires key in table
    ensures InsertIgnore(table, key) == table
  {
  }

  /** Deleting an absent key changes nothing. */
  lemma DeleteAbsent<T(!new)>(table: set<T>, key: T)
    requires key !in table
    ensures DeleteKey(table, key) == table
  {
  }

  /** Insert then delete of a key that was absent restores the table. */
  lemma DeleteUndoesInsert<T(!new)>(table: set<T>, key: T)
    requires key !in table
    ensures DeleteKey(InsertIgnore(table, key), key) == table
  {
  }

  /** Delete then insert of a key that was present restores the table. */
  lemma InsertUndoesDelete<T(!new)>(table: set<T>, key: T)
    requires key in table
    ensures InsertIgnore(DeleteKey(table, key), key) == table
  {
  }
}
