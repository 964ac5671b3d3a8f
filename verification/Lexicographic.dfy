/**
 The order in which the stores keep their keys, and the ascending enumeration of a set of keys.
 Go strings are byte strings; a character here stands for one byte.
 */
module Lexicographic {

  predicate Less(a: string, b: string) {
    b != [] && (a == [] || a[0] < b[0] || (a[0] == b[0] && Less(a[1..], b[1..])))
  }

  predicate AtMost(a: string, b: string) {
    a == b || Less(a, b)
  }

  lemma {:induction false} Irreflexive(a: string)
    ensures !Less(a, a)
  {
    if a != [] {
      Irreflexive(a[1..]);
    }
  }

  lemma {:induction false} Transitive(a: string, b: string, c: string)
    requires Less(a, b) && Less(b, c)
    ensures Less(a, c)
  {
    if a != [] && a[0] == b[0] == c[0] {
      Transitive(a[1..], b[1..], c[1..]);
    }
  }

  lemma {:induction false} Total(a: string, b: string)
    ensures a == b || Less(a, b) || Less(b, a)
  {
    if a != [] && b != [] && a[0] == b[0] {
      Total(a[1..], b[1..]);
      assert a == [a[0]] + a[1..] && b == [b[0]] + b[1..];
    }
  }

  /** Keys that share a prefix compare as their remainders do. */
  lemma {:induction false} SharedPrefix(prefix: string, a: string, b: string)
    ensures Less(prefix + a, prefix + b) <==> Less(a, b)
  {
    if prefix == [] {
      assert prefix + a == a && prefix + b == b;
    } else {
      SharedPrefix(prefix[1..], a, b);
      assert (prefix + a)[1..] == prefix[1..] + a && (prefix + b)[1..] == prefix[1..] + b;
    }
  }

  ghost predicate Sorted(s: seq<string>) {
    forall i, j :: 0 <= i < j < |s| ==> Less(s[i], s[j])
  }

  /** s lists exactly the given keys, in ascending order and so without repetition. */
  ghost predicate Enumerates(s: seq<string>, keys: set<string>) {
    Sorted(s) && forall k :: k in s <==> k in keys
  }

  lemma {:induction false} LeastExists(keys: set<string>) returns (least: string)
    requires keys != {}
    ensures least in keys && forall k :: k in keys ==> AtMost(least, k)
    decreases |keys|
  {
    var candidate :| candidate in keys;
    if keys == {candidate} {
      least := candidate;
    } else {
      var rest := keys - {candidate};
      assert rest != {} by {
        var other :| other in keys && other != candidate;
        assert other in rest;
      }
      least := LeastExists(rest);
      Total(candidate, least);
      if Less(candidate, least) {
        forall k | k in keys ensures AtMost(candidate, k) {
          if k in rest && k != least {
            Transitive(candidate, least, k);
          }
        }
        least := candidate;
      }
    }
  }

  lemma LeastFirst(least: string, rest: seq<string>, keys: set<string>)
    requires least in keys && (forall k :: k in keys ==> AtMost(least, k))
    requires Enumerates(rest, keys - {least})
    ensures Enumerates([least] + rest, keys)
  {
    var s := [least] + rest;
    forall i, j | 0 <= i < j < |s| ensures Less(s[i], s[j]) {
      assert s[j] == rest[j - 1] && rest[j - 1] in rest;
    }
    assert forall k :: k in s <==> k == least || k in rest;
  }

  lemma {:induction false} EnumerationExists(keys: set<string>) returns (s: seq<string>)
    ensures Enumerates(s, keys)
    decreases |keys|
  {
    if keys == {} {
      s := [];
    } else {
      var least := LeastExists(keys);
      var rest := EnumerationExists(keys - {least});
      LeastFirst(least, rest, keys);
      s := [least] + rest;
    }
  }

  /** The keys in ascending order. */
  ghost function Ascending(keys: set<string>): (s: seq<string>)
    ensures Enumerates(s, keys)
  {
    assert exists s :: Enumerates(s, keys) by {
      var s := EnumerationExists(keys);
    }
    var s :| Enumerates(s, keys);
    s
  }

  /** There is only one ascending enumeration of a set of keys. */
  lemma {:induction false} EnumerationUnique(s: seq<string>, t: seq<string>, keys: set<string>)
    requires Enumerates(s, keys) && Enumerates(t, keys)
    ensures s == t
    decreases |s|
  {
    EmptyEnumeration(s, keys);
    EmptyEnumeration(t, keys);
    if s != [] {
      HeadsAgree(s, t, keys);
      TailEnumerates(s, keys);
      TailEnumerates(t, keys);
      EnumerationUnique(s[1..], t[1..], keys - {s[0]});
      assert s == [s[0]] + s[1..] && t == [t[0]] + t[1..];
    }
  }

  lemma EmptyEnumeration(s: seq<string>, keys: set<string>)
    requires Enumerates(s, keys)
    ensures s == [] <==> keys == {}
  {
    if s != [] {
      assert s[0] in keys;
    }
  }

  lemma HeadsAgree(s: seq<string>, t: seq<string>, keys: set<string>)
    requires Enumerates(s, keys) && Enumerates(t, keys) && s != [] && t != []
    ensures s[0] == t[0]
  {
    assert s[0] in t && t[0] in s;
    var i :| 0 <= i < |t| && t[i] == s[0];
    var j :| 0 <= j < |s| && s[j] == t[0];
    if i > 0 && j > 0 {
      Transitive(s[0], t[0], s[0]);
      Irreflexive(s[0]);
    }
  }

  lemma TailEnumerates(s: seq<string>, keys: set<string>)
    requires Enumerates(s, keys) && s != []
    ensures Enumerates(s[1..], keys - {s[0]})
  {
    Irreflexive(s[0]);
    forall k ensures k in s[1..] <==> k in keys - {s[0]} {
      if k in keys && k != s[0] {
        var i :| 0 <= i < |s| && s[i] == k;
        assert s[1..][i - 1] == k;
      }
    }
  }

  /** Enumerating after removing the least key drops the head of the enumeration. */
  lemma AscendingAfterLeast(keys: set<string>, least: string)
    requires least in keys && forall k :: k in keys ==> AtMost(least, k)
    ensures Ascending(keys) == [least] + Ascending(keys - {least})
  {
    LeastFirst(least, Ascending(keys - {least}), keys);
    EnumerationUnique(Ascending(keys), [least] + Ascending(keys - {least}), keys);
  }

  /** Prefixing every key keeps the enumeration. */
  lemma AscendingWithPrefix(prefix: string, keys: set<string>, prefixed: set<string>)
    requires forall k :: k in keys <==> prefix + k in prefixed
    requires forall p :: p in prefixed ==> prefix <= p
    ensures |Ascending(prefixed)| == |Ascending(keys)|
    ensures forall i :: 0 <= i < |Ascending(keys)| ==> Ascending(prefixed)[i] == prefix + Ascending(keys)[i]
  {
    var s := Ascending(keys);
    var t := seq(|s|, i requires 0 <= i < |s| => prefix + s[i]);
    forall i, j | 0 <= i < j < |t| ensures Less(t[i], t[j]) {
      SharedPrefix(prefix, s[i], s[j]);
    }
    forall p ensures p in t <==> p in prefixed {
      if p in prefixed {
        var k := p[|prefix|..];
        assert p == prefix + k;
        var i :| 0 <= i < |s| && s[i] == k;
        assert t[i] == p;
      }
    }
    EnumerationUnique(Ascending(prefixed), t, prefixed);
  }

  /** Sorts a set of keys by insertion. */
  method SortKeys(keys: set<string>) returns (sorted: seq<string>)
    ensures sorted == Ascending(keys)
  {
    sorted := [];
    var pending := keys;
    while pending != {}
      invariant pending <= keys && Sorted(sorted)
      invariant forall k :: k in sorted <==> k in keys && k !in pending
      decreases pending
    {
      var k :| k in pending;
      sorted := InsertKey(sorted, k);
      pending := pending - {k};
    }
    EnumerationUnique(sorted, Ascending(keys), keys);
  }

  method InsertKey(sorted: seq<string>, key: string) returns (longer: seq<string>)
    requires Sorted(sorted) && key !in sorted
    ensures Sorted(longer) && forall k :: k in longer <==> k == key || k in sorted
  {
    var i := 0;
    while i < |sorted| && Less(sorted[i], key)
      invariant i <= |sorted|
      invariant forall j :: 0 <= j < i ==> Less(sorted[j], key)
    {
      i := i + 1;
    }
    longer := sorted[..i] + [key] + sorted[i..];
    forall j | i <= j < |sorted| ensures Less(key, sorted[j]) {
      Total(sorted[i], key);
      if j > i {
        Transitive(key, sorted[i], sorted[j]);
      }
    }
    assert sorted == sorted[..i] + sorted[i..];
  }
}
