/**
 * The response's header table: a std::map<std::string, std::string>,
 * modelled as what that container is, a list of entries whose keys are
 * strictly increasing under std::string's operator<. Iterating over it (as
 * the serialiser does) visits the keys in that order, each once.
 */
module OrderedMap {
  import opened Wrappers

  /** std::string's operator<: lexicographic, character by character (the
      library compares bytes as unsigned char; chars compare by code point). */
  predicate Less(a: string, b: string)
    decreases |a|
  {
    if a == [] then b != []
    else if b == [] then false
    else if a[0] != b[0] then a[0] < b[0]
    else Less(a[1..], b[1..])
  }

  lemma {:induction false} LessIrreflexive(a: string)
    ensures !Less(a, a)
    decreases |a|
  {
    if a != [] {
      LessIrreflexive(a[1..]);
    }
  }

  lemma {:induction false} LessTransitive(a: string, b: string, c: string)
    requires Less(a, b) && Less(b, c)
    ensures Less(a, c)
    decreases |a|
  {
    if a != [] && a[0] == b[0] && b[0] == c[0] {
      LessTransitive(a[1..], b[1..], c[1..]);
    }
  }

  lemma {:induction false} LessTotal(a: string, b: string)
    ensures a == b || Less(a, b) || Less(b, a)
    decreases |a|
  {
    if a != [] && b != [] && a[0] == b[0] {
      LessTotal(a[1..], b[1..]);
      if a[1..] == b[1..] {
        assert a == [a[0]] + a[1..] && b == [b[0]] + b[1..];
      }
    }
  }

  lemma {:induction false} LessAsymmetric(a: string, b: string)
    requires Less(a, b)
    ensures !Less(b, a)
    decreases |a|
  {
    if a != [] && a[0] == b[0] {
      LessAsymmetric(a[1..], b[1..]);
    }
  }

  type Entry = (string, string)

  predicate Increasing(e: seq<Entry>) {
    forall i, j :: 0 <= i < j < |e| ==> Less(e[i].0, e[j].0)
  }

  /** A std::map<std::string, std::string>: entries in increasing key order. */
  type Entries = e: seq<Entry> | Increasing(e) witness []

  function Keys(e: seq<Entry>): set<string> {
    set i | 0 <= i < |e| :: e[i].0
  }

  lemma KeysCons(x: Entry, e: seq<Entry>)
    ensures Keys([x] + e) == {x.0} + Keys(e)
  {
    var c := [x] + e;
    assert c[0].0 == x.0;
    forall y | y in Keys(c) ensures y in {x.0} + Keys(e) {
      var i :| 0 <= i < |c| && c[i].0 == y;
      if i > 0 { assert e[i - 1].0 == y; }
    }
    forall y | y in Keys(e) ensures y in Keys(c) {
      var i :| 0 <= i < |e| && e[i].0 == y;
      assert c[i + 1].0 == y;
    }
  }

  /** An entry below every key of an increasing list can go in front of it. */
  lemma ConsIncreasing(x: Entry, e: Entries)
    requires forall y :: y in Keys(e) ==> Less(x.0, y)
    ensures Increasing([x] + e)
  {
    var c := [x] + e;
    forall i, j | 0 <= i < j < |c| ensures Less(c[i].0, c[j].0) {
      if i == 0 {
        assert c[j].0 == e[j - 1].0;
        assert e[j - 1].0 in Keys(e);
      } else {
        assert c[i] == e[i - 1] && c[j] == e[j - 1];
      }
    }
  }

  /** The first key of an increasing list is below all the others. */
  lemma HeadBelowTail(e: Entries)
    requires e != []
    ensures e == [e[0]] + e[1..]
    ensures Keys(e) == {e[0].0} + Keys(e[1..])
    ensures forall y :: y in Keys(e[1..]) ==> Less(e[0].0, y)
  {
    KeysCons(e[0], e[1..]);
    assert e == [e[0]] + e[1..];
    forall y | y in Keys(e[1..]) ensures Less(e[0].0, y) {
      var i :| 0 <= i < |e[1..]| && e[1..][i].0 == y;
      assert e[i + 1].0 == y;
    }
  }

  /** A key below the first key of an increasing list is below all of them. */
  lemma BelowHead(k: string, e: Entries)
    requires e != [] && Less(k, e[0].0)
    ensures forall y :: y in Keys(e) ==> Less(k, y)
  {
    HeadBelowTail(e);
    forall y | y in Keys(e) ensures Less(k, y) {
      if y != e[0].0 { LessTransitive(k, e[0].0, y); }
    }
  }

  /** The key/value view of an entry list. */
  function ToMap(e: Entries): (m: map<string, string>)
    ensures m.Keys == Keys(e)
  {
    if e == [] then map[]
    else
      var tail: Entries := e[1..];
      HeadBelowTail(e);
      ToMap(tail)[e[0].0 := e[0].1]
  }

  /** Each entry of the list is what the map view gives for its key. */
  lemma {:induction false} ToMapAt(e: Entries, i: nat)
    requires i < |e|
    ensures ToMap(e)[e[i].0] == e[i].1
  {
    if i > 0 {
      var tail: Entries := e[1..];
      HeadBelowTail(e);
      assert tail[i - 1] == e[i];
      assert e[i].0 in Keys(tail);
      LessIrreflexive(e[0].0);
      ToMapAt(tail, i - 1);
    }
  }

  /**
   * `m.find(k)`: the ordered search, in key order, that stops at the first
   * key not below `k`; it finds `k` there or nowhere.
   */
  function Lookup(e: Entries, k: string): (r: Option<string>)
    ensures r.Some? <==> k in ToMap(e)
    ensures r.Some? ==> r.value == ToMap(e)[k]
  {
    if e == [] then None
    else if e[0].0 == k then Some(e[0].1)
    else if Less(k, e[0].0) then
      BelowHead(k, e);
      LessIrreflexive(k);
      None
    else
      var tail: Entries := e[1..];
      HeadBelowTail(e);
      Lookup(tail, k)
  }

  lemma TailIncreasing(e: Entries)
    requires e != []
    ensures Increasing(e[1..])
  {
    forall i, j | 0 <= i < j < |e| - 1 ensures Less(e[1..][i].0, e[1..][j].0) {
      assert e[1..][i] == e[i + 1] && e[1..][j] == e[j + 1];
    }
  }

  /** Replacing the first entry's value keeps the list increasing. */
  lemma ReplaceHeadIncreasing(e: Entries, v: string)
    requires e != []
    ensures Increasing([(e[0].0, v)] + e[1..])
    ensures Keys([(e[0].0, v)] + e[1..]) == Keys(e)
  {
    HeadBelowTail(e);
    TailIncreasing(e);
    ConsIncreasing((e[0].0, v), e[1..]);
    KeysCons((e[0].0, v), e[1..]);
  }

  /** Put when the first entry holds the key: that entry is replaced. */
  lemma PutAtHead(e: Entries, k: string, v: string)
    requires e != [] && e[0].0 == k
    ensures Increasing([(k, v)] + e[1..])
    ensures ToMap([(k, v)] + e[1..]) == ToMap(e)[k := v]
    ensures Keys([(k, v)] + e[1..]) == Keys(e) + {k}
    ensures k in Keys(e)
  {
    ReplaceHeadIncreasing(e, v);
    var tail: Entries := e[1..];
    var r: Entries := [(k, v)] + tail;
    assert r[1..] == tail;
    assert ToMap(r) == ToMap(tail)[k := v];
    assert e[0].0 in Keys(e) by { assert e[0].0 == e[0].0; }
  }

  /** Put of a key below the first one: a new entry in front. */
  lemma PutBeforeHead(e: Entries, k: string, v: string)
    requires e != [] && Less(k, e[0].0)
    ensures Increasing([(k, v)] + e)
    ensures ToMap([(k, v)] + e) == ToMap(e)[k := v]
    ensures Keys([(k, v)] + e) == Keys(e) + {k}
    ensures k !in Keys(e)
  {
    BelowHead(k, e);
    LessIrreflexive(k);
    ConsIncreasing((k, v), e);
    KeysCons((k, v), e);
    var r: Entries := [(k, v)] + e;
    assert r[1..] == e;
  }

  /** The map view of a list with an entry in front. */
  lemma ToMapCons(x: Entry, t: Entries)
    requires Increasing([x] + t)
    ensures ToMap([x] + t) == ToMap(t)[x.0 := x.1]
  {
    var c: Entries := [x] + t;
    assert c[1..] == t;
  }

  lemma UpdateCommutes(m: map<string, string>, a: string, av: string, b: string, bv: string)
    requires a != b
    ensures m[a := av][b := bv] == m[b := bv][a := av]
  {
  }

  /** Put of a key above the first one: the first entry stays in front. */
  lemma PutAfterHead(e: Entries, k: string, v: string, rest: Entries)
    requires e != [] && Less(e[0].0, k)
    requires Increasing(e[1..])
    requires ToMap(rest) == ToMap(e[1..])[k := v]
    requires Keys(rest) == Keys(e[1..]) + {k}
    ensures Increasing([e[0]] + rest)
    ensures ToMap([e[0]] + rest) == ToMap(e)[k := v]
    ensures Keys([e[0]] + rest) == Keys(e) + {k}
    ensures k in Keys(e) <==> k in Keys(e[1..])
  {
    var h := e[0];
    var tail: Entries := e[1..];
    HeadBelowTail(e);
    LessIrreflexive(h.0);
    assert h.0 != k;
    ConsIncreasing(h, rest);
    KeysCons(h, rest);
    ToMapCons(h, rest);
    ToMapCons(h, tail);
    UpdateCommutes(ToMap(tail), k, v, h.0, h.1);
  }

  /**
   * `m[k] = v`: overwrites the entry for `k` or inserts one at its place in
   * key order. Every other key keeps its value.
   */
  function Put(e: Entries, k: string, v: string): (r: Entries)
    ensures ToMap(r) == ToMap(e)[k := v]
    ensures Keys(r) == Keys(e) + {k}
    ensures |r| == if k in Keys(e) then |e| else |e| + 1
  {
    if e == [] then [(k, v)]
    else if e[0].0 == k then
      PutAtHead(e, k, v);
      [(k, v)] + e[1..]
    else if Less(k, e[0].0) then
      PutBeforeHead(e, k, v);
      [(k, v)] + e
    else
      LessTotal(k, e[0].0);
      TailIncreasing(e);
      var rest := Put(e[1..], k, v);
      PutAfterHead(e, k, v, rest);
      [e[0]] + rest
  }
}
