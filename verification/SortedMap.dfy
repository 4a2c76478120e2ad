/** Ordered maps from strings, as lists of pairs that iterators walk over. */
module SortedMaps {
  datatype Pair<V> = Pair(key: string, value: V)

  /** `a` is before `b` in the order of `compare`. */
  predicate Before(a: string, b: string) {
    if b == "" then false
    else a == "" || a[0] < b[0] || (a[0] == b[0] && Before(a[1..], b[1..]))
  }

  /** Lexicographic order: at the first difference the smaller character, or else the shorter string. */
  ghost predicate IsBefore(a: string, b: string) {
    exists n :: 0 <= n <= |a| && n < |b| && a[..n] == b[..n] && (n == |a| || a[n] < b[n])
  }

  lemma {:induction false} BeforeMeans(a: string, b: string)
    ensures Before(a, b) <==> IsBefore(a, b)
  {
    if b == "" {
    } else if a == "" || a[0] != b[0] {
      if Before(a, b) {
        assert a[..0] == b[..0];
      }
      assert forall n :: 0 < n <= |a| && n < |b| ==> a[..n][0] == a[0] && b[..n][0] == b[0];
    } else {
      BeforeMeans(a[1..], b[1..]);
      if IsBefore(a[1..], b[1..]) {
        var n :| 0 <= n <= |a[1..]| && n < |b[1..]| && a[1..][..n] == b[1..][..n] &&
          (n == |a[1..]| || a[1..][n] < b[1..][n]);
        assert a[..n + 1] == [a[0]] + a[1..][..n] && b[..n + 1] == [b[0]] + b[1..][..n];
      }
      if IsBefore(a, b) {
        var n :| 0 <= n <= |a| && n < |b| && a[..n] == b[..n] && (n == |a| || a[n] < b[n]);
        assert a[1..][..n - 1] == a[..n][1..] && b[1..][..n - 1] == b[..n][1..];
      }
    }
  }

  lemma {:induction false} BeforeTransitive(a: string, b: string, c: string)
    requires Before(a, b) && Before(b, c)
    ensures Before(a, c)
  {
    if a != "" && a[0] == b[0] && b[0] == c[0] {
      BeforeTransitive(a[1..], b[1..], c[1..]);
    }
  }

  lemma {:induction false} BeforeTotal(a: string, b: string)
    ensures Before(a, b) || a == b || Before(b, a)
    ensures !(Before(a, b) && Before(b, a)) && (a == b ==> !Before(a, b))
  {
    if a != "" && b != "" && a[0] == b[0] {
      BeforeTotal(a[1..], b[1..]);
      assert a == [a[0]] + a[1..] && b == [b[0]] + b[1..];
    }
  }

  /** Keys go up. */
  ghost predicate Sorted<V>(s: seq<Pair<V>>) {
    s == [] || (Above(s[0].key, s[1..]) && Sorted(s[1..]))
  }

  /** A key is before all keys of a list. */
  ghost predicate Above<V>(key: string, s: seq<Pair<V>>) {
    forall p :: p in s ==> Before(key, p.key)
  }

  function ToMap<V>(s: seq<Pair<V>>): map<string, V> {
    if s == [] then map[] else ToMap(s[1..])[s[0].key := s[0].value]
  }

  /** `m[key] = value`. */
  function Put<V>(s: seq<Pair<V>>, key: string, value: V): seq<Pair<V>> {
    if s == [] || Before(key, s[0].key) then [Pair(key, value)] + s
    else if s[0].key == key then [Pair(key, value)] + s[1..]
    else [s[0]] + Put(s[1..], key, value)
  }

  lemma {:induction false} PutMembers<V>(s: seq<Pair<V>>, key: string, value: V)
    ensures forall p :: p in Put(s, key, value) ==> p in s || p == Pair(key, value)
  {
    if s != [] && !Before(key, s[0].key) && s[0].key != key {
      PutMembers(s[1..], key, value);
    }
  }

  lemma {:induction false} PutToMap<V>(s: seq<Pair<V>>, key: string, value: V)
    ensures ToMap(Put(s, key, value)) == ToMap(s)[key := value]
  {
    var r := Put(s, key, value);
    if s == [] || Before(key, s[0].key) {
      assert r[1..] == s;
    } else if s[0].key == key {
      assert r[1..] == s[1..];
    } else {
      PutToMap(s[1..], key, value);
      assert r[1..] == Put(s[1..], key, value);
    }
  }

  lemma {:induction false} PutSorted<V>(s: seq<Pair<V>>, key: string, value: V)
    requires Sorted(s)
    ensures Sorted(Put(s, key, value)) && ToMap(Put(s, key, value)) == ToMap(s)[key := value]
  {
    PutToMap(s, key, value);
    var r := Put(s, key, value);
    if s == [] || Before(key, s[0].key) {
      assert r[1..] == s;
      if s != [] {
        forall p | p in s ensures Before(key, p.key) {
          if p != s[0] {
            assert p in s[1..];
            BeforeTransitive(key, s[0].key, p.key);
          }
        }
      }
    } else if s[0].key == key {
      assert r[1..] == s[1..];
    } else {
      BeforeTotal(key, s[0].key);
      PutSorted(s[1..], key, value);
      PutMembers(s[1..], key, value);
      assert r[1..] == Put(s[1..], key, value);
    }
  }

  /** A key before all keys of a list is not among them. */
  lemma {:induction false} AboveAbsent<V>(key: string, s: seq<Pair<V>>)
    requires Above(key, s)
    ensures key !in ToMap(s)
  {
    if s != [] {
      AboveAbsent(key, s[1..]);
      BeforeTotal(key, s[0].key);
    }
  }

  /** A key before the first of a sorted list is not among its keys. */
  lemma FirstAbsent<V>(key: string, s: seq<Pair<V>>)
    requires Sorted(s) && (s == [] || Before(key, s[0].key))
    ensures key !in ToMap(s)
  {
    if s != [] {
      forall p | p in s ensures Before(key, p.key) {
        if p != s[0] {
          assert p in s[1..];
          BeforeTransitive(key, s[0].key, p.key);
        }
      }
      AboveAbsent(key, s);
    }
  }
}
