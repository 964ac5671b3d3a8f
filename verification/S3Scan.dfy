/**
 Range scans over an object store through a paged listing. The server may cut the listing into pages of
 any size from one key up to the requested maximum, and reading a listed object may fail.
 */
module S3Scan {
  import opened Options
  import opened RowCodec
  import opened Lexicographic

  type Objects = map<string, Fields>

  /** The objects, and the object keys whose reads fail. */
  datatype Bucket = Bucket(objects: Objects, broken: set<string>)

  datatype Record = KeyOnly(key: string) | Values(values: Fields)

  function TablePrefix(table: string): string {
    if table == "" then "" else table + "/"
  }

  /** Stripping the table prefix gives the key back. */
  function ComposeObjectKey(table: string, key: string): (objectKey: string)
    ensures TablePrefix(table) <= objectKey && objectKey[|TablePrefix(table)|..] == key
  {
    if table == "" then key else table + "/" + key
  }

  lemma ObjectKeyIs(table: string, key: string)
    ensures ComposeObjectKey(table, key) == TablePrefix(table) + key
  {}

  /** Within a table object keys keep the order of the record keys. */
  lemma ObjectKeysOrdered(table: string, a: string, b: string)
    ensures Less(ComposeObjectKey(table, a), ComposeObjectKey(table, b)) <==> Less(a, b)
    ensures ComposeObjectKey(table, a) == ComposeObjectKey(table, b) <==> a == b
  {
    ObjectKeyIs(table, a);
    ObjectKeyIs(table, b);
    SharedPrefix(TablePrefix(table), a, b);
  }

  /** Tables whose names have no slash do not share object keys. */
  lemma TablesDisjoint(table: string, key: string, other: string, otherKey: string)
    requires table != "" && other != "" && '/' !in table && '/' !in other
    ensures ComposeObjectKey(table, key) == ComposeObjectKey(other, otherKey) <==> table == other && key == otherKey
  {
    var a, b := ComposeObjectKey(table, key), ComposeObjectKey(other, otherKey);
    if a == b {
      assert a[|table|] == '/' && b[|other|] == '/';
      assert a[..|table|] == table && b[..|other|] == other;
    }
  }

  /** None stands for an error of the store: the object is not there, or reading it fails. */
  function Read(bucket: Bucket, table: string, key: string, fields: seq<string>): Option<Fields> {
    var objectKey := ComposeObjectKey(table, key);
    if objectKey !in bucket.objects || objectKey in bucket.broken then None
    else if fields == [] then Some(bucket.objects[objectKey])
    else Some(Restrict(bucket.objects[objectKey], fields))
  }

  // ----- the listing and its pages

  /** The object keys under the prefix and after startAfter, in order. */
  ghost function Listing(bucket: Bucket, prefix: string, startAfter: string): seq<string> {
    Ascending(set p | p in bucket.objects && prefix <= p && Less(startAfter, p))
  }

  /** How many keys the server puts on a page: at most the maximum, at least one if any is left. */
  function PageSize(policy: nat -> nat, position: nat, maxKeys: nat, left: nat): (n: nat)
    ensures n <= maxKeys && n <= left && (left > 0 && maxKeys > 0 ==> n > 0)
  {
    var most := if maxKeys < left then maxKeys else left;
    if 1 <= policy(position) <= most then policy(position) else most
  }

  const TWO_31: int := 0x8000_0000

  /** int32(n). */
  function Cast32(n: nat): (m: int)
    ensures -TWO_31 <= m < TWO_31 && m <= n && (n < TWO_31 ==> m == n)
  {
    (n + TWO_31) % (2 * TWO_31) - TWO_31
  }

  /**
   The most keys the server will list for a requested page size. What it does with a size that is not
   positive is up to it: refuse the request, or list up to its own maximum of 1000.
   */
  function Allowed(odd: int -> Option<nat>, maxKeys: int): (most: Option<nat>)
    ensures maxKeys > 0 ==> most == Some(maxKeys)
    ensures maxKeys <= 0 && most.Some? ==> most.value <= 1000
  {
    if maxKeys > 0 then Some(maxKeys)
    else match odd(maxKeys)
      case None => None
      case Some(n) => Some(if n < 1000 then n else 1000)
  }

  // ----- what a scan is meant to return

  /** The keys of a table's records. */
  ghost function RecordKeys(bucket: Bucket, table: string): (keys: set<string>)
    ensures forall k :: k in keys <==> TablePrefix(table) + k in bucket.objects
  {
    var n := |TablePrefix(table)|;
    var keys := set p | p in bucket.objects && TablePrefix(table) <= p :: p[n..];
    forall k ensures k in keys <==> TablePrefix(table) + k in bucket.objects {
      if TablePrefix(table) + k in bucket.objects {
        assert (TablePrefix(table) + k)[n..] == k;
      }
      if k in keys {
        var p :| p in bucket.objects && TablePrefix(table) <= p && p[n..] == k;
        assert p == TablePrefix(table) + k;
      }
    }
    keys
  }

  /** A scan for keys only reads nothing, so nothing can fail. */
  predicate Readable(bucket: Bucket, table: string, keysOnly: bool, key: string) {
    keysOnly || ComposeObjectKey(table, key) !in bucket.broken
  }

  function Take<T>(s: seq<T>, n: nat): seq<T> {
    if n < |s| then s[..n] else s
  }

  /** The first `count` readable record keys at or after the start. */
  ghost function Expected(bucket: Bucket, table: string, startKey: string, count: nat, keysOnly: bool): seq<string> {
    var keys := set k | k in RecordKeys(bucket, table) && AtMost(startKey, k) && Readable(bucket, table, keysOnly, k);
    Take(Ascending(keys), count)
  }

  // ----- what the scan returns

  ghost function KeysAfter(bucket: Bucket, table: string, startKey: string): seq<string> {
    Ascending(set k | k in RecordKeys(bucket, table) && Less(startKey, k))
  }

  /** The readable ones among some keys, in the same order. */
  ghost function Kept(bucket: Bucket, table: string, keysOnly: bool, keys: seq<string>): (kept: seq<string>)
    ensures |kept| <= |keys|
  {
    if keys == [] then []
    else
      var last := keys[|keys| - 1];
      Kept(bucket, table, keysOnly, keys[..|keys| - 1]) + if Readable(bucket, table, keysOnly, last) then [last] else []
  }

  /** The start key is looked up apart from the listing; with keysOnly it is not looked up at all. */
  function Head(bucket: Bucket, table: string, startKey: string, keysOnly: bool): seq<string> {
    if startKey != "" && (keysOnly || Read(bucket, table, startKey, []).Some?) then [startKey] else []
  }

  ghost function Scanned(bucket: Bucket, table: string, startKey: string, count: nat, keysOnly: bool): seq<string> {
    Take(Head(bucket, table, startKey, keysOnly) +
         Kept(bucket, table, keysOnly, KeysAfter(bucket, table, startKey)), count)
  }

  /** results are the records of these keys, in this order. */
  ghost predicate RecordsOf(results: seq<Record>, keys: seq<string>, bucket: Bucket, table: string,
                            fields: seq<string>, keysOnly: bool)
  {
    && |results| == |keys|
    && forall i :: 0 <= i < |keys| ==>
         if keysOnly then results[i] == KeyOnly(keys[i]) else IsRecord(bucket, table, keys[i], fields, results[i])
  }

  /** The record holds exactly the fields asked for, of the object under the key. */
  ghost predicate IsRecord(bucket: Bucket, table: string, key: string, fields: seq<string>, record: Record) {
    var objectKey := TablePrefix(table) + key;
    && objectKey in bucket.objects && objectKey !in bucket.broken
    && record == Values(Chosen(bucket.objects[objectKey], fields))
  }

  lemma NoRecords(bucket: Bucket, table: string, fields: seq<string>, keysOnly: bool)
    ensures RecordsOf([], [], bucket, table, fields, keysOnly)
    ensures Kept(bucket, table, keysOnly, []) == []
  {}

  lemma RecordsLength(records: seq<Record>, keys: seq<string>, bucket: Bucket, table: string, fields: seq<string>,
                      keysOnly: bool)
    requires RecordsOf(records, keys, bucket, table, fields, keysOnly)
    ensures |records| == |keys|
  {}

  /** What becomes of one key: its record, or nothing when its read fails. */
  lemma OneRecord(bucket: Bucket, table: string, key: string, fields: seq<string>, keysOnly: bool)
    requires ComposeObjectKey(table, key) in bucket.objects
    ensures !keysOnly ==> (Read(bucket, table, key, fields).Some? <==> Readable(bucket, table, keysOnly, key))
    ensures keysOnly ==> Readable(bucket, table, keysOnly, key)
  {}

  lemma SingleKey(bucket: Bucket, table: string, key: string, fields: seq<string>)
    ensures RecordsOf([KeyOnly(key)], [key], bucket, table, fields, true)
  {}

  lemma SingleRecord(bucket: Bucket, table: string, key: string, fields: seq<string>)
    requires Read(bucket, table, key, fields).Some?
    ensures RecordsOf([Values(Read(bucket, table, key, fields).value)], [key], bucket, table, fields, false)
  {
    ObjectKeyIs(table, key);
    var stored := bucket.objects[TablePrefix(table) + key];
    assert Chosen(stored, fields) == if fields == [] then stored else Restrict(stored, fields);
  }

  lemma RecordsConcat(a: seq<Record>, ka: seq<string>, b: seq<Record>, kb: seq<string>, bucket: Bucket, table: string,
                      fields: seq<string>, keysOnly: bool)
    requires RecordsOf(a, ka, bucket, table, fields, keysOnly) && RecordsOf(b, kb, bucket, table, fields, keysOnly)
    ensures RecordsOf(a + b, ka + kb, bucket, table, fields, keysOnly)
  {
    hide IsRecord;
  }

  lemma KeptOneMore(bucket: Bucket, table: string, keysOnly: bool, keys: seq<string>, key: string)
    ensures var kept := Kept(bucket, table, keysOnly, keys);
            Kept(bucket, table, keysOnly, keys + [key]) ==
            if Readable(bucket, table, keysOnly, key) then kept + [key] else kept
  {
    assert (keys + [key])[..|keys|] == keys;
  }

  lemma {:induction false} KeptConcat(bucket: Bucket, table: string, keysOnly: bool, a: seq<string>, b: seq<string>)
    ensures Kept(bucket, table, keysOnly, a + b) ==
            Kept(bucket, table, keysOnly, a) + Kept(bucket, table, keysOnly, b)
    decreases |b|
  {
    hide Kept, Readable;
    if b == [] {
      NoRecords(bucket, table, [], keysOnly);
      assert a + b == a;
    } else {
      var front, last := b[..|b| - 1], b[|b| - 1];
      KeptConcat(bucket, table, keysOnly, a, front);
      assert a + b == (a + front) + [last] && b == front + [last];
      KeptOneMore(bucket, table, keysOnly, a + front, last);
      KeptOneMore(bucket, table, keysOnly, front, last);
    }
  }

  /** The readable keys of an ascending enumeration are the ascending enumeration of the readable keys. */
  lemma {:induction false} KeptEnumerates(bucket: Bucket, table: string, keysOnly: bool, keys: seq<string>)
    requires Sorted(keys)
    ensures var kept := Kept(bucket, table, keysOnly, keys);
            Sorted(kept) && forall k :: k in kept <==> k in keys && Readable(bucket, table, keysOnly, k)
  {
    hide Readable;
    if keys != [] {
      var front, last := keys[..|keys| - 1], keys[|keys| - 1];
      KeptEnumerates(bucket, table, keysOnly, front);
      assert keys == front + [last];
      var kept := Kept(bucket, table, keysOnly, front);
      forall i | 0 <= i < |kept| ensures Less(kept[i], last) {
        assert kept[i] in kept;
      }
    }
  }

  lemma ListingIsKeysAfter(bucket: Bucket, table: string, startKey: string)
    ensures var listing := Listing(bucket, TablePrefix(table), ComposeObjectKey(table, startKey));
            var keys := KeysAfter(bucket, table, startKey);
            && |listing| == |keys|
            && forall i :: 0 <= i < |keys| ==> listing[i] == TablePrefix(table) + keys[i]
  {
    var prefix := TablePrefix(table);
    var keys := set k | k in RecordKeys(bucket, table) && Less(startKey, k);
    var listed := set p | p in bucket.objects && prefix <= p && Less(ComposeObjectKey(table, startKey), p);
    ObjectKeyIs(table, startKey);
    forall k ensures k in keys <==> prefix + k in listed {
      SharedPrefix(prefix, startKey, k);
    }
    AscendingWithPrefix(prefix, keys, listed);
  }

  /** One page of results: every key is stripped of its prefix and read; a failing read is passed over. */
  method ReadPage(bucket: Bucket, table: string, contents: seq<string>, startAfter: string, remaining: nat,
                  fields: seq<string>, keysOnly: bool, ghost keys: seq<string>)
    returns (records: seq<Record>)
    requires |contents| == |keys| <= remaining
    requires forall i :: 0 <= i < |keys| ==> contents[i] == ComposeObjectKey(table, keys[i]) && keys[i] != ""
    requires forall i :: 0 <= i < |keys| ==> contents[i] in bucket.objects && contents[i] != startAfter
    ensures RecordsOf(records, Kept(bucket, table, keysOnly, keys), bucket, table, fields, keysOnly)
  {
    hide Kept, Readable, RecordsOf, Read;
    records := [];
    NoRecords(bucket, table, fields, keysOnly);
    var prefix := TablePrefix(table);
    var left := remaining;
    for i := 0 to |contents|
      invariant left == remaining - |Kept(bucket, table, keysOnly, keys[..i])|
      invariant RecordsOf(records, Kept(bucket, table, keysOnly, keys[..i]), bucket, table, fields, keysOnly)
    {
      if left == 0 {
        break;
      }
      var key := contents[i];
      if key == startAfter {
        continue;
      }
      var recordKey := key;
      if prefix != "" && |key| > |prefix| && key[..|prefix|] == prefix {
        recordKey := key[|prefix|..];
      }
      assert recordKey == keys[i] && keys[..i + 1] == keys[..i] + [keys[i]];
      KeptOneMore(bucket, table, keysOnly, keys[..i], keys[i]);
      OneRecord(bucket, table, keys[i], fields, keysOnly);
      var record := KeyOnly(recordKey);
      if !keysOnly {
        var values := Read(bucket, table, recordKey, fields);
        if values.None? {
          continue;
        }
        record := Values(values.value);
        SingleRecord(bucket, table, keys[i], fields);
      } else {
        SingleKey(bucket, table, keys[i], fields);
      }
      RecordsConcat(records, Kept(bucket, table, keysOnly, keys[..i]), [record], [keys[i]],
                    bucket, table, fields, keysOnly);
      records := records + [record];
      left := left - 1;
    }
    assert keys[..|keys|] == keys;
  }

  lemma JoinPage(results: seq<Record>, records: seq<Record>, keys: seq<string>, position: nat, n: nat, bucket: Bucket,
                 table: string, fields: seq<string>, keysOnly: bool)
    requires position + n <= |keys|
    requires RecordsOf(results, Kept(bucket, table, keysOnly, keys[..position]), bucket, table, fields, keysOnly)
    requires RecordsOf(records, Kept(bucket, table, keysOnly, keys[position..position + n]),
                       bucket, table, fields, keysOnly)
    ensures var kept := Kept(bucket, table, keysOnly, keys[..position + n]);
            && RecordsOf(results + records, kept, bucket, table, fields, keysOnly)
            && |kept| == |Kept(bucket, table, keysOnly, keys[..position])| + |records|
            && |records| <= n
  {
    hide Kept, RecordsOf;
    var page := keys[position..position + n];
    assert keys[..position + n] == keys[..position] + page;
    KeptConcat(bucket, table, keysOnly, keys[..position], page);
    RecordsLength(records, Kept(bucket, table, keysOnly, page), bucket, table, fields, keysOnly);
    RecordsConcat(results, Kept(bucket, table, keysOnly, keys[..position]),
                  records, Kept(bucket, table, keysOnly, page), bucket, table, fields, keysOnly);
  }

  /**
   The listing loop; it terminates because a truncated page is never empty, even if no read of it
   succeeds. Only a count past 32 bits can make it stop early or fail.
   */
  method ScanAfter(bucket: Bucket, table: string, startKey: string, count: nat, fields: seq<string>, keysOnly: bool,
                   policy: nat -> nat, odd: int -> Option<nat>)
    returns (results: seq<Record>, ok: bool)
    ensures ok || count >= TWO_31
    ensures var kept := Kept(bucket, table, keysOnly, KeysAfter(bucket, table, startKey));
            && |results| <= count
            && RecordsOf(results, Take(kept, |results|), bucket, table, fields, keysOnly)
            && (count < TWO_31 ==> RecordsOf(results, Take(kept, count), bucket, table, fields, keysOnly))
  {
    hide Listing, KeysAfter, Kept, Read, RecordsOf, ComposeObjectKey, TablePrefix, PageSize, Cast32, Allowed;
    results, ok := [], true;
    NoRecords(bucket, table, fields, keysOnly);
    ghost var keys := KeysAfter(bucket, table, startKey);
    var prefix := TablePrefix(table);
    var startAfter := ComposeObjectKey(table, startKey);
    ListingIsKeysAfter(bucket, table, startKey);
    var position := 0;
    var remaining := count;
    while remaining > 0
      invariant 0 <= position <= |keys|
      invariant remaining == count - |Kept(bucket, table, keysOnly, keys[..position])| >= 0
      invariant RecordsOf(results, Kept(bucket, table, keysOnly, keys[..position]), bucket, table, fields, keysOnly)
      decreases |keys| - position
    {
      var maxKeys := Cast32(remaining);
      if maxKeys > 1000 {
        maxKeys := 1000;
      }
      var most := Allowed(odd, maxKeys);
      if most.None? {
        ok := false;
        break;
      }
      var contents, truncated := ListObjects(bucket, prefix, startAfter, position, most.value, policy);
      if |contents| == 0 {
        break;
      }
      ghost var pageKeys := keys[position..position + |contents|];
      PageIsWellFormed(bucket, table, startKey, position, |contents|);
      assert forall i :: 0 <= i < |contents| ==>
               contents[i] == Listing(bucket, prefix, startAfter)[position + i] && pageKeys[i] == keys[position + i];
      var records := ReadPage(bucket, table, contents, startAfter, remaining, fields, keysOnly, pageKeys);
      JoinPage(results, records, keys, position, |contents|, bucket, table, fields, keysOnly);
      results := results + records;
      remaining := remaining - |records|;
      position := position + |contents|;
      if !truncated || remaining == 0 {
        break;
      }
    }
    RecordsLength(results, Kept(bucket, table, keysOnly, keys[..position]), bucket, table, fields, keysOnly);
    KeptPrefix(bucket, table, keysOnly, keys, position, |results|);
    if count < TWO_31 {
      KeptPrefix(bucket, table, keysOnly, keys, position, count);
    }
  }

  /** Once `count` readable keys have been met, or all keys, the first `count` readable ones are known. */
  lemma KeptPrefix(bucket: Bucket, table: string, keysOnly: bool, keys: seq<string>, position: nat, count: nat)
    requires position <= |keys|
    requires var kept := Kept(bucket, table, keysOnly, keys[..position]);
             |kept| == count || (position == |keys| && |kept| <= count)
    ensures Take(Kept(bucket, table, keysOnly, keys), count) == Kept(bucket, table, keysOnly, keys[..position])
  {
    assert keys == keys[..position] + keys[position..];
    KeptConcat(bucket, table, keysOnly, keys[..position], keys[position..]);
  }

  /**
   Returns the records of the scanned keys, whatever the paging. A count of 2^31 or more is cast to a page
   size that may not be positive, so that the scan may fail or stop early; what it returns is then
   still a prefix.
   */
  method Scan(bucket: Bucket, table: string, startKey: string, count: int, fields: seq<string>, keysOnly: bool,
              policy: nat -> nat, odd: int -> Option<nat>)
    returns (results: seq<Record>, ok: bool)
    ensures count <= 0 ==> ok && results == []
    ensures !ok ==> results == [] && count >= TWO_31
    ensures count > 0 ==>
              var scanned := Scanned(bucket, table, startKey, count, keysOnly);
              && |results| <= count
              && RecordsOf(results, Take(scanned, |results|), bucket, table, fields, keysOnly)
              && (count < TWO_31 ==> RecordsOf(results, scanned, bucket, table, fields, keysOnly))
  {
    hide KeysAfter, Kept, TablePrefix, RecordsOf;
    results, ok := [], true;
    NoRecords(bucket, table, fields, keysOnly);
    if count <= 0 {
      return;
    }
    ghost var head := Head(bucket, table, startKey, keysOnly);
    ghost var keys := Kept(bucket, table, keysOnly, KeysAfter(bucket, table, startKey));
    if startKey != "" {
      if keysOnly {
        results := results + [KeyOnly(startKey)];
        SingleKey(bucket, table, startKey, fields);
        assert results == [KeyOnly(startKey)];
      } else {
        var rec := Read(bucket, table, startKey, fields);
        if rec.Some? {
          results := results + [Values(rec.value)];
          SingleRecord(bucket, table, startKey, fields);
          assert results == [Values(rec.value)];
        }
      }
      if |results| >= count {
        assert Take(head + keys, count) == head;
        return;
      }
    }
    var rest, listed := ScanAfter(bucket, table, startKey, count - |results|, fields, keysOnly, policy, odd);
    if !listed {
      assert Take(Take(head + keys, count), 0) == [];
      return [], false;
    }
    RecordsConcat(results, head, rest, Take(keys, |rest|), bucket, table, fields, keysOnly);
    if count < TWO_31 {
      RecordsConcat(results, head, rest, Take(keys, count - |head|), bucket, table, fields, keysOnly);
    }
    RecordsLength(rest, Take(keys, |rest|), bucket, table, fields, keysOnly);
    TakePart(head, keys, |rest|, count);
    results := results + rest;
    assert Take(head + keys, count) == head + Take(keys, count - |head|);
  }

  lemma TakePart(head: seq<string>, keys: seq<string>, n: nat, count: nat)
    requires n <= |keys| && |head| + n <= count
    ensures Take(Take(head + keys, count), |head| + n) == head + Take(keys, n)
  {}

  lemma PageIsWellFormed(bucket: Bucket, table: string, startKey: string, position: nat, n: nat)
    requires position + n <= |Listing(bucket, TablePrefix(table), ComposeObjectKey(table, startKey))|
    ensures var listing := Listing(bucket, TablePrefix(table), ComposeObjectKey(table, startKey));
            var keys := KeysAfter(bucket, table, startKey);
            && |keys| == |listing|
            && forall i :: position <= i < position + n ==>
                 && listing[i] == ComposeObjectKey(table, keys[i]) && keys[i] != ""
                 && listing[i] in bucket.objects && listing[i] != ComposeObjectKey(table, startKey)
  {
    var listing := Listing(bucket, TablePrefix(table), ComposeObjectKey(table, startKey));
    var keys := KeysAfter(bucket, table, startKey);
    ListingIsKeysAfter(bucket, table, startKey);
    Irreflexive(ComposeObjectKey(table, startKey));
    forall i | position <= i < position + n
      ensures && listing[i] in bucket.objects && listing[i] != ComposeObjectKey(table, startKey)
              && keys[i] != "" && listing[i] == ComposeObjectKey(table, keys[i])
    {
      assert listing[i] in listing && keys[i] in keys;
      ObjectKeyIs(table, keys[i]);
    }
  }

  /** The server: the keys from a continuation position on, cut to a page. */
  method ListObjects(bucket: Bucket, prefix: string, startAfter: string, position: nat, maxKeys: nat,
                     policy: nat -> nat)
    returns (contents: seq<string>, truncated: bool)
    requires position <= |Listing(bucket, prefix, startAfter)|
    ensures var listing := Listing(bucket, prefix, startAfter);
            && |contents| <= maxKeys && position + |contents| <= |listing|
            && contents == listing[position..position + |contents|]
            && (truncated <==> position + |contents| < |listing|)
            && (|contents| == 0 && maxKeys > 0 ==> !truncated)
  {
    var pending := set p | p in bucket.objects && prefix <= p && Less(startAfter, p);
    var keys := SortKeys(pending);
    var n := PageSize(policy, position, maxKeys, |keys| - position);
    contents := keys[position..position + n];
    truncated := position + n < |keys|;
  }

  // ----- when the two agree

  /** The readable keys at or after the start are the start key, if it is one, and the readable keys after it. */
  lemma StartThenAfter(bucket: Bucket, table: string, startKey: string, keysOnly: bool)
    ensures var all := RecordKeys(bucket, table);
            var from := Ascending(set k | k in all && AtMost(startKey, k) && Readable(bucket, table, keysOnly, k));
            var after := Kept(bucket, table, keysOnly, KeysAfter(bucket, table, startKey));
            && startKey !in after
            && from == if startKey in all && Readable(bucket, table, keysOnly, startKey) then [startKey] + after
                       else after
  {
    hide Readable;
    var all := RecordKeys(bucket, table);
    var from := set k | k in all && AtMost(startKey, k) && Readable(bucket, table, keysOnly, k);
    var after := set k | k in all && Less(startKey, k) && Readable(bucket, table, keysOnly, k);
    var kept := Kept(bucket, table, keysOnly, KeysAfter(bucket, table, startKey));
    Irreflexive(startKey);
    KeptEnumerates(bucket, table, keysOnly, KeysAfter(bucket, table, startKey));
    EnumerationUnique(Ascending(after), kept, after);
    if startKey in from {
      AscendingAfterLeast(from, startKey);
      assert from - {startKey} == after;
    } else {
      assert from == after;
    }
  }

  /** The start key is not invented, and a readable record with an empty key is not passed over. */
  predicate StartIsSound(bucket: Bucket, table: string, startKey: string, keysOnly: bool) {
    var stored := ComposeObjectKey(table, startKey) in bucket.objects;
    if startKey == "" then !(stored && Readable(bucket, table, keysOnly, startKey)) else keysOnly ==> stored
  }

  /**
   The scan visits exactly the first `count` readable records at or after the start key, in order and
   without repetition, exactly when the start key is sound: keysOnly reports a start key that does not
   exist, and a listing after the bare table prefix leaves out the record whose key is empty.
   */
  lemma ScanExactIff(bucket: Bucket, table: string, startKey: string, count: nat, keysOnly: bool)
    requires count > 0
    ensures Scanned(bucket, table, startKey, count, keysOnly) == Expected(bucket, table, startKey, count, keysOnly)
       <==> StartIsSound(bucket, table, startKey, keysOnly)
  {
    hide Kept, KeysAfter;
    StartThenAfter(bucket, table, startKey, keysOnly);
    ObjectKeyIs(table, startKey);
    var after := Kept(bucket, table, keysOnly, KeysAfter(bucket, table, startKey));
    assert [] + after == after;
    if !StartIsSound(bucket, table, startKey, keysOnly) {
      if startKey == "" {
        assert Expected(bucket, table, startKey, count, keysOnly)[0] == startKey;
        assert Scanned(bucket, table, startKey, count, keysOnly) == Take(after, count);
      } else {
        assert Scanned(bucket, table, startKey, count, keysOnly)[0] == startKey;
        assert Expected(bucket, table, startKey, count, keysOnly) == Take(after, count);
      }
    }
  }

  /** A scan for keys only in an empty bucket reports the start key. */
  lemma InventedStartKey(table: string, count: nat)
    requires count > 0
    ensures Scanned(Bucket(map[], {}), table, "k", count, true) == ["k"]
    ensures Expected(Bucket(map[], {}), table, "k", count, true) == []
  {
    var bucket := Bucket(map[], {});
    NothingAfter(bucket, table, "k", true);
    StartThenAfter(bucket, table, "k", true);
  }

  /** A scan from the empty key does not see the record whose key is empty. */
  lemma EmptyKeyLeftOut(table: string, row: Fields, count: nat, keysOnly: bool)
    requires count > 0
    ensures var bucket := Bucket(map[TablePrefix(table) := row], {});
            && Scanned(bucket, table, "", count, keysOnly) == []
            && Expected(bucket, table, "", count, keysOnly) == [""]
  {
    var bucket := Bucket(map[TablePrefix(table) := row], {});
    assert TablePrefix(table) + "" == TablePrefix(table);
    NothingAfter(bucket, table, "", keysOnly);
    StartThenAfter(bucket, table, "", keysOnly);
  }

  lemma NothingAfter(bucket: Bucket, table: string, startKey: string, keysOnly: bool)
    requires forall k :: k in RecordKeys(bucket, table) ==> k == ""
    ensures Kept(bucket, table, keysOnly, KeysAfter(bucket, table, startKey)) == []
  {
    EmptyEnumeration(KeysAfter(bucket, table, startKey), {});
  }
}
