/** core/stores/cache/cachenode.go and core/stores/sqlc/cachedsql.go: rows cached in Redis beside a
    database, read through a primary-key cache or through an index cache that stores primary keys.

    Redis commands and the database may fail at any step; the caller of each method says which
    fail. Entries may expire between any two operations, and in the middle of QueryRowIndex. JSON
    is a codec with a stated contract. Calls are sequential, so the SingleFlight barrier of doTake
    always runs the function and reports `fresh`. */
module CacheAside {
  import opened Options

  const PLACEHOLDER := "*"

  datatype Outcome<V> = Row(value: V) | NotFound | RedisError | DbError

  datatype CacheRead<T> = Hit(value: T) | Placeholder | Missing | Failed

  datatype Codec<!T> = Codec(encode: T -> string, decode: string -> Option<T>)

  /** Decoding an encoded value gives it back, and no encoding is empty or the placeholder. */
  ghost predicate CodecOk<T(!new)>(c: Codec<T>) {
    forall v :: c.decode(c.encode(v)) == Some(v) && c.encode(v) != "" && c.encode(v) != PLACEHOLDER
  }

  /** Which step fails, if any. */
  datatype Faults = Faults(onGet: bool, onDel: bool, onQuery: bool, onSet: bool)

  function Answer<V>(found: Option<V>): (r: Outcome<V>) {
    if found.Some? then Row(found.value) else NotFound
  }

  /** A cached string is consistent with the answer the database gives for its key. An empty string
      counts as a miss and an undecodable one is dropped by the reader. */
  ghost predicate Agrees<T>(data: string, c: Codec<T>, answer: Option<T>) {
    data == "" || (if data == PLACEHOLDER then answer.None? else c.decode(data).Some? ==> c.decode(data) == answer)
  }

  /** What a reader makes of the entry of a key: an entry it can use, or a miss. */
  function Usable<T>(store: map<string, string>, key: string, c: Codec<T>): (r: CacheRead<T>) {
    if key !in store || store[key] == "" then Missing
    else if store[key] == PLACEHOLDER then Placeholder
    else if c.decode(store[key]).Some? then Hit(c.decode(store[key]).value)
    else Missing
  }

  /** What is written for an answer of the database. */
  function Entry<T>(c: Codec<T>, found: Option<T>): (data: string) {
    if found.Some? then c.encode(found.value) else PLACEHOLDER
  }

  /** An entry that a reader would use stays right across a write exactly when the answer for its key
      does not change. */
  lemma StaleUnlessUnaffected<T>(data: string, c: Codec<T>, before: Option<T>, after: Option<T>)
    requires data != "" && (data == PLACEHOLDER || c.decode(data).Some?) && Agrees(data, c, before)
    ensures Agrees(data, c, after) <==> before == after
  {}

  class CachedConn<D(!new), P(!new), V(!new)> {
    const rows: Codec<V>
    const primaries: Codec<P>
    const isIndex: string -> bool                       // keys of the index cache
    const rowQuery: (D, string) -> Option<V>            // what the database answers for a row key
    const indexQuery: (D, string) -> Option<(P, V)>     // ... and for an index key
    const keyer: P -> string
    var db: D
    var store: map<string, string>
    ghost var stale: set<string>                      // keys whose deletion failed and is to be retried

    /** The row an index key leads to is the row of its primary key. */
    ghost predicate SchemaOk(d: D)
    {
      && (forall p :: !isIndex(keyer(p)))
      && (forall k :: isIndex(k) && indexQuery(d, k).Some? ==>
            rowQuery(d, keyer(indexQuery(d, k).value.0)) == Some(indexQuery(d, k).value.1))
    }

    function Primary(d: D, k: string): (r: Option<P>) {
      if indexQuery(d, k).Some? then Some(indexQuery(d, k).value.0) else None
    }

    function IndexRow(d: D, k: string): (r: Option<V>) {
      if indexQuery(d, k).Some? then Some(indexQuery(d, k).value.1) else None
    }

    /** An entry agrees with what the database `d` answers for its key. */
    ghost predicate Fits(k: string, data: string, d: D) {
      if isIndex(k) then Agrees(data, primaries, Primary(d, k)) else Agrees(data, rows, rowQuery(d, k))
    }

    ghost predicate EntryOk(k: string)
      requires k in store
      reads this
    {
      Fits(k, store[k], db)
    }

    /** A reader would use this entry. */
    ghost predicate IsUsed(k: string, data: string) {
      && data != ""
      && (data == PLACEHOLDER || (if isIndex(k) then primaries.decode(data).Some? else rows.decode(data).Some?))
    }

    ghost predicate SameAnswer(k: string, before: D, after: D) {
      if isIndex(k) then Primary(before, k) == Primary(after, k) else rowQuery(before, k) == rowQuery(after, k)
    }

    /** The write names every key it affects: as far as a reader would use the entry, the answers of the
        other keys stay the same. */
    ghost predicate NamesAffected(after: D, keys: set<string>)
      reads this
    {
      forall k :: k in store && k !in keys && k !in stale && IsUsed(k, store[k]) ==> SameAnswer(k, db, after)
    }

    lemma UsedOrNot(k: string, data: string, before: D, after: D)
      requires Fits(k, data, before)
      ensures Fits(k, data, after) <==> (IsUsed(k, data) ==> SameAnswer(k, before, after))
    {
      if IsUsed(k, data) {
        if isIndex(k) {
          StaleUnlessUnaffected(data, primaries, Primary(before, k), Primary(after, k));
        } else {
          StaleUnlessUnaffected(data, rows, rowQuery(before, k), rowQuery(after, k));
        }
      }
    }

    /** Naming the affected keys is exactly what it takes: after the write, the entries that are not
        deleted agree with the database if and only if every key affected was named. */
    lemma ExecExactly(after: D, keys: set<string>)
      requires Valid()
      ensures NamesAffected(after, keys) <==>
              (forall k :: k in store && k !in keys && k !in stale ==> Fits(k, store[k], after))
    {
      hide Fits, IsUsed, SameAnswer;
      forall k | k in store && k !in stale
        ensures Fits(k, store[k], after) <==> (IsUsed(k, store[k]) ==> SameAnswer(k, db, after))
      {
        assert EntryOk(k);
        UsedOrNot(k, store[k], db, after);
      }
    }

    ghost predicate Valid()
      reads this
    {
      && CodecOk(rows) && CodecOk(primaries) && SchemaOk(db)
      && (forall k {:trigger EntryOk(k)} :: k in store && k !in stale ==> EntryOk(k))
    }

    constructor (db: D, rows: Codec<V>, primaries: Codec<P>, isIndex: string -> bool, keyer: P -> string,
                 rowQuery: (D, string) -> Option<V>, indexQuery: (D, string) -> Option<(P, V)>)
      requires CodecOk(rows) && CodecOk(primaries)
      requires forall p :: !isIndex(keyer(p))
      requires forall k :: isIndex(k) && indexQuery(db, k).Some? ==>
                 rowQuery(db, keyer(indexQuery(db, k).value.0)) == Some(indexQuery(db, k).value.1)
      ensures Valid() && this.db == db && stale == {}
    {
      this.db, this.rows, this.primaries, this.isIndex := db, rows, primaries, isIndex;
      this.keyer, this.rowQuery, this.indexQuery := keyer, rowQuery, indexQuery;
      store, stale := map[], {};
    }

    /** Entries may disappear at any time. */
    method Expire(gone: set<string>)
      requires Valid()
      modifies `store, `stale
      ensures Valid() && store == old(store) - gone && stale == old(stale) - gone
    {
      store, stale := store - gone, stale - gone;
      forall k | k in store && k !in stale ensures EntryOk(k) { assert old(EntryOk(k)); }
    }

    /** ExecCtx: the statement, which may fail, then the deletion of the named keys. A key whose
        deletion fails may stay with an old answer until it is retried. */
    method Exec(after: D, keys: set<string>, ok: bool, failed: set<string>)
      requires Valid() && SchemaOk(after) && failed <= keys && (ok ==> NamesAffected(after, keys))
      modifies this
      ensures Valid()
      ensures !ok ==> db == old(db) && store == old(store) && stale == old(stale)
      ensures ok ==> db == after && store == old(store) - (keys - failed) && stale == old(stale) - keys + failed
    {
      if !ok { return; }
      ExecExactly(after, keys);
      hide Fits;
      db := after;
      store := store - (keys - failed);
      stale := stale - keys + failed;
    }

    /** asyncRetryDelCache, when the retry gets through. */
    method Retry(keys: set<string>)
      requires Valid()
      modifies `store, `stale
      ensures Valid() && store == old(store) - keys && stale == old(stale) - keys
    {
      Expire(keys);
    }

    /** doGetCache with processCache. */
    method GetCache<T>(key: string, c: Codec<T>, faults: Faults) returns (r: CacheRead<T>)
      requires Valid()
      modifies `store, `stale
      ensures Valid() && stale <= old(stale)
      ensures r == if faults.onGet then Failed else Usable(old(store), key, c)
      ensures r.Hit? || r.Placeholder? || r.Failed? ==> store == old(store) && stale == old(stale)
      ensures store - {key} == old(store) - {key} && stale - {key} == old(stale) - {key}
    {
      if faults.onGet { return Failed; }
      var data := if key in store then store[key] else "";
      if |data| == 0 { return Missing; }
      if data == PLACEHOLDER { return Placeholder; }
      var v := c.decode(data);
      if v.Some? { return Hit(v.value); }
      if !faults.onDel {
        Expire({key});
      }
      r := Missing;
    }

    /** SetWithExpireCtx and setCacheWithNotFound. */
    method Put(key: string, data: string, fails: bool)
      requires Valid()
      requires if isIndex(key) then Agrees(data, primaries, Primary(db, key)) else Agrees(data, rows, rowQuery(db, key))
      modifies `store, `stale
      ensures Valid()
      ensures fails ==> store == old(store) && stale == old(stale)
      ensures !fails ==> store == old(store)[key := data] && stale == old(stale) - {key}
    {
      if !fails {
        store, stale := store[key := data], stale - {key};
        forall k | k in store && k !in stale ensures EntryOk(k) {
          if k != key { assert old(EntryOk(k)); }
        }
      }
    }

    /** QueryRowCtx through TakeCtx. It answers as the database would; the database is asked only when
        the cache has no answer; and afterwards, unless a write fails, the cache has it. */
    method QueryRow(key: string, faults: Faults) returns (r: Outcome<V>)
      requires Valid() && !isIndex(key)
      modifies `store, `stale
      ensures Valid() && stale <= old(stale)
      ensures r.RedisError? <==> faults.onGet
      ensures r.DbError? <==> !faults.onGet && faults.onQuery && Usable(old(store), key, rows).Missing?
      ensures key !in old(stale) && (r.Row? || r.NotFound?) ==> r == Answer(rowQuery(db, key))
      ensures (r.Row? || r.NotFound?) && !faults.onSet ==>
                Usable(store, key, rows) == if r.Row? then Hit(r.value) else Placeholder
      ensures r.NotFound? && !faults.onSet ==> key in store && store[key] == "*"
      ensures store - {key} == old(store) - {key}
    {
      var cached := GetCache(key, rows, faults);
      if key in old(store) && key !in old(stale) { assert old(EntryOk(key)); }
      match cached
      case Failed => return RedisError;
      case Placeholder => return NotFound;
      case Hit(v) => return Row(v);
      case Missing =>
        if faults.onQuery { return DbError; }
        var found := rowQuery(db, key);
        Put(key, Entry(rows, found), faults.onSet);
        r := Answer(found);
    }

    /** The index key and the row key it leads to hold this answer of the database. */
    ghost predicate IndexCached(key: string, r: Outcome<V>)
      reads this
    {
      if Primary(db, key).Some? then
        && Usable(store, key, primaries) == Hit(Primary(db, key).value)
        && r.Row? && Usable(store, keyer(Primary(db, key).value), rows) == Hit(r.value)
      else Usable(store, key, primaries) == Placeholder
    }

    /** The keys that belong to an index key: itself and the row key it leads to. */
    ghost function Chain(key: string, primary: Option<P>): (keys: set<string>) {
      if primary.Some? then {key, keyer(primary.value)} else {key}
    }

    /** The query QueryRowIndexCtx passes to TakeWithExpireCtx, and the write of its answer. A failure
        to write the row beside a new index entry is an error. */
    method LoadIndex(key: string, faults: Faults, rowSetFails: bool) returns (r: Outcome<V>)
      requires Valid() && isIndex(key)
      modifies `store, `stale
      ensures Valid()
      ensures r.DbError? <==> faults.onQuery
      ensures r.RedisError? <==> !faults.onQuery && Primary(db, key).Some? && rowSetFails
      ensures r.Row? || r.NotFound? ==> r == Answer(IndexRow(db, key)) && (!faults.onSet ==> IndexCached(key, r))
      ensures var keys := Chain(key, Primary(db, key)); store - keys == old(store) - keys
    {
      if faults.onQuery { return DbError; }
      var found := indexQuery(db, key);
      if found.None? {
        Put(key, PLACEHOLDER, faults.onSet);
        return NotFound;
      }
      Put(keyer(found.value.0), rows.encode(found.value.1), rowSetFails);
      if rowSetFails { return RedisError; }
      Put(key, primaries.encode(found.value.0), faults.onSet);
      r := Row(found.value.1);
    }

    /** QueryRowIndexCtx: through the index cache to the primary key, then through the row cache;
        `gone` expires in between. */
    method QueryRowIndex(key: string, faults: Faults, rowSetFails: bool, gone: set<string>, faults': Faults)
      returns (r: Outcome<V>)
      requires Valid() && isIndex(key)
      modifies `store, `stale
      ensures Valid()
      ensures (&& key !in old(stale) && (Primary(db, key).Some? ==> keyer(Primary(db, key).value) !in old(stale))
               && (r.Row? || r.NotFound?))
              ==> r == Answer(IndexRow(db, key))
      ensures faults.onGet ==> r == RedisError && store == old(store)
      ensures !faults.onGet ==>
                match Usable(old(store), key, primaries)
                case Hit(p) =>
                  && (r.RedisError? <==> faults'.onGet)
                  && (r.DbError? <==>
                        !faults'.onGet && faults'.onQuery && Usable(old(store) - gone, keyer(p), rows).Missing?)
                  && store - ({keyer(p)} + gone) == old(store) - ({keyer(p)} + gone)
                case Placeholder => r == NotFound && store == old(store)
                case _ =>
                  && (r.DbError? <==> faults.onQuery)
                  && (r.RedisError? <==> !faults.onQuery && Primary(db, key).Some? && rowSetFails)
                  && (r.Row? || r.NotFound? ==> !faults.onSet ==> IndexCached(key, r))
                  && var keys := Chain(key, Primary(db, key)); store - keys == old(store) - keys
    {
      var cached := GetCache(key, primaries, faults);
      if key in old(store) && key !in old(stale) { assert old(EntryOk(key)); }
      match cached
      case Failed => return RedisError;
      case Placeholder => return NotFound;
      case Missing =>
        ghost var before := store;
        r := LoadIndex(key, faults, rowSetFails);
        ghost var keys := Chain(key, Primary(db, key));
        assert before - keys == old(store) - keys by { SameBeyond(before, old(store), key, keys); }
      case Hit(p) =>
        Expire(gone);
        r := QueryRow(keyer(p), faults');
        SameBeyond(store, old(store) - gone, keyer(p), {keyer(p)} + gone);
    }
  }

  lemma SameBeyond(a: map<string, string>, b: map<string, string>, key: string, keys: set<string>)
    requires a - {key} == b - {key} && key in keys
    ensures a - keys == b - keys
  {
    assert (a - {key}) - keys == a - keys && (b - {key}) - keys == b - keys;
  }
}
