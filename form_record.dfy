/** The registration draft as the JavaScript object it is in the form: an
    ordered list of properties with distinct names. Assigning a property that
    exists keeps its position, assigning a new one appends it, and `delete`
    removes it; reading a missing property gives `undefined`. */
module FormRecord {

  /** The values a draft property takes: text fields hold strings, the terms
      checkbox a boolean, and a property read from a record that lacks it is
      `undefined`. */
  datatype Value = Str(s: string) | Bool(b: bool) | Undefined

  /** JavaScript truthiness of a value. */
  predicate Truthy(v: Value) {
    match v
    case Str(s) => s != ""
    case Bool(b) => b
    case Undefined => false
  }

  /** `a || b`: the first operand when it is truthy, otherwise the second. */
  function Or(a: Value, b: Value): Value {
    if Truthy(a) then a else b
  }

  /** The string a value becomes when it is handed to `URLSearchParams` as
      a record (the ECMAScript ToString conversion). Only the empty string
      becomes "". */
  function ToString(v: Value): (s: string)
    ensures s == "" <==> v == Str("")
    ensures v.Str? ==> s == v.s
  {
    match v
    case Str(s) => s
    case Bool(b) => if b then "true" else "false"
    case Undefined => "undefined"
  }

  /** One property of the record. */
  datatype Entry = Entry(key: string, value: Value)

  /** The property names in order (`Object.keys`). */
  function Keys(es: seq<Entry>): seq<string> {
    seq(|es|, i requires 0 <= i < |es| => es[i].key)
  }

  predicate UniqueKeys(es: seq<Entry>) {
    forall i, j :: 0 <= i < j < |es| ==> es[i].key != es[j].key
  }

  /** A record never holds two properties with the same name. */
  type Draft = es: seq<Entry> | UniqueKeys(es) witness []

  /** `a` appears in `b` in order, possibly with other elements between. */
  predicate IsSubsequence<T(==)>(a: seq<T>, b: seq<T>)
    decreases |b|
  {
    a == [] || (b != [] && (IsSubsequence(a, b[1..]) || (a[0] == b[0] && IsSubsequence(a[1..], b[1..]))))
  }

  lemma KeysMember(es: seq<Entry>, k: string)
    ensures k in Keys(es) <==> exists e :: e in es && e.key == k
  {
    if k in Keys(es) {
      var i :| 0 <= i < |es| && Keys(es)[i] == k;
      assert es[i] in es;
    }
    if e :| e in es && e.key == k {
      var i :| 0 <= i < |es| && es[i] == e;
      assert Keys(es)[i] == k;
    }
  }

  /** Reading property `k` (`record[k]`). */
  function Get(es: seq<Entry>, k: string): (r: Value)
    ensures k in Keys(es) ==> Entry(k, r) in es
    ensures k !in Keys(es) ==> r == Undefined
  {
    if es == [] then Undefined
    else if es[0].key == k then
      assert Keys(es)[0] == k;
      es[0].value
    else
      assert Keys(es) == [es[0].key] + Keys(es[1..]);
      Get(es[1..], k)
  }

  /** In a record, a property's name determines its value. */
  lemma GetEntry(d: Draft, e: Entry)
    requires e in d
    ensures Get(d, e.key) == e.value
  {
    KeysMember(d, e.key);
    var i :| 0 <= i < |d| && d[i] == e;
    var j :| 0 <= j < |d| && d[j] == Entry(e.key, Get(d, e.key));
    assert i == j;
  }

  /** Assigning property `k` (`record[k] = v`, or `k: v` in an object
      literal after a spread): an existing property keeps its position, a new
      one goes last. */
  function Set(d: Draft, k: string, v: Value): (r: Draft)
    ensures Keys(r) == if k in Keys(d) then Keys(d) else Keys(d) + [k]
    ensures Get(r, k) == v
    ensures forall k' :: k' != k ==> Get(r, k') == Get(d, k')
  {
    KeysMember(d, k);
    var r: seq<Entry> :=
      if k in Keys(d) then seq(|d|, i requires 0 <= i < |d| => if d[i].key == k then Entry(k, v) else d[i])
      else d + [Entry(k, v)];
    assert Keys(r) == if k in Keys(d) then Keys(d) else Keys(d) + [k];
    assert UniqueKeys(r);
    SetEntries(d, k, v, r);
    GetEntry(r, Entry(k, v));
    forall k' | k' != k ensures Get(r, k') == Get(d, k') {
      KeysMember(r, k');
      KeysMember(d, k');
      if k' in Keys(d) {
        GetEntry(r, Entry(k', Get(d, k')));
      }
    }
    r
  }

  /** The entries after an assignment: the assigned one, and every other
      entry as it was. */
  lemma SetEntries(d: Draft, k: string, v: Value, r: seq<Entry>)
    requires r == if k in Keys(d) then seq(|d|, i requires 0 <= i < |d| => if d[i].key == k then Entry(k, v) else d[i])
                  else d + [Entry(k, v)]
    ensures forall e :: e in r <==> e == Entry(k, v) || (e in d && e.key != k)
  {
    KeysMember(d, k);
    forall e | e in d && e.key != k ensures e in r {
      var i :| 0 <= i < |d| && d[i] == e;
      assert r[i] == e;
    }
    if k in Keys(d) {
      var i :| 0 <= i < |d| && d[i].key == k;
      assert r[i] == Entry(k, v);
    }
  }

  /** Assignment as a whole: the entries are the assigned one and every
      other entry as it was. */
  lemma SetMembers(d: Draft, k: string, v: Value)
    ensures forall e :: e in Set(d, k, v) <==> e == Entry(k, v) || (e in d && e.key != k)
  {
    var r := Set(d, k, v);
    KeysMember(d, k);
    KeysMember(r, k);
    forall e | e in r ensures e == Entry(k, v) || (e in d && e.key != k) {
      GetEntry(r, e);
      KeysMember(d, e.key);
      if e.key != k {
        GetEntry(d, Entry(e.key, Get(d, e.key)));
      }
    }
    forall e | e == Entry(k, v) || (e in d && e.key != k) ensures e in r {
      if e != Entry(k, v) {
        GetEntry(d, e);
        KeysMember(r, e.key);
        KeysMember(d, e.key);
      }
    }
  }

  /** The properties `keep` accepts, in their order. */
  function Filter(es: seq<Entry>, keep: Entry -> bool): seq<Entry> {
    if es == [] then [] else (if keep(es[0]) then [es[0]] else []) + Filter(es[1..], keep)
  }

  /** Filtering keeps exactly the accepted properties, in their order, and
      never creates a duplicate name. */
  lemma {:induction false} FilterProperties(es: seq<Entry>, keep: Entry -> bool)
    ensures forall e :: e in Filter(es, keep) <==> e in es && keep(e)
    ensures IsSubsequence(Keys(Filter(es, keep)), Keys(es))
    ensures UniqueKeys(es) ==> UniqueKeys(Filter(es, keep))
    decreases |es|
  {
    if es != [] {
      var rest := Filter(es[1..], keep);
      FilterProperties(es[1..], keep);
      assert Keys(es) == [es[0].key] + Keys(es[1..]);
      assert Keys(es)[1..] == Keys(es[1..]);
      var r := Filter(es, keep);
      assert keep(es[0]) ==> r == [es[0]] + rest;
      assert !keep(es[0]) ==> r == rest;
      assert keep(es[0]) ==> Keys(r) == [es[0].key] + Keys(rest);
      assert keep(es[0]) ==> Keys(r)[1..] == Keys(rest);
      assert UniqueKeys(es) ==> UniqueKeys(r) by {
        if UniqueKeys(es) && keep(es[0]) {
          assert UniqueKeys(es[1..]);
          KeysMember(rest, es[0].key);
          KeysMember(es[1..], es[0].key);
        }
      }
    }
  }

  /** The filter that `delete record[k]` applies. */
  function KeyIsNot(k: string): Entry -> bool {
    (e: Entry) => e.key != k
  }

  /** `delete record[k]`. */
  function Delete(d: Draft, k: string): (r: Draft)
    ensures forall k' :: k' in Keys(r) <==> k' in Keys(d) && k' != k
    ensures forall e :: e in r <==> e in d && e.key != k
    ensures forall k' :: k' != k ==> Get(r, k') == Get(d, k')
    ensures IsSubsequence(Keys(r), Keys(d))
  {
    var r := Filter(d, KeyIsNot(k));
    FilterProperties(d, KeyIsNot(k));
    forall k' ensures k' in Keys(r) <==> k' in Keys(d) && k' != k {
      KeysMember(r, k');
      KeysMember(d, k');
    }
    forall k' | k' != k ensures Get(r, k') == Get(d, k') {
      if k' in Keys(d) {
        GetEntry(r, Entry(k', Get(d, k')));
      }
    }
    r
  }

  /** Removes every property whose value is the empty string. */
  function DropEmpty(es: seq<Entry>): (r: seq<Entry>)
    ensures forall e :: e in r <==> e in es && e.value != Str("")
    ensures IsSubsequence(Keys(r), Keys(es))
    ensures UniqueKeys(es) ==> UniqueKeys(r)
  {
    FilterProperties(es, IsNotEmpty);
    Filter(es, IsNotEmpty)
  }

  /** The filter that drops properties whose value is "". */
  predicate IsNotEmpty(e: Entry) {
    e.value != Str("")
  }

  /** In the middle of the clean-up loop: deleting the property at the
      current position removes exactly that entry, and reading it first gives
      its value. */
  lemma DeleteAt(d: Draft, a: seq<Entry>, e: Entry, b: seq<Entry>)
    requires d == a + [e] + b
    ensures Get(d, e.key) == e.value
    ensures Delete(d, e.key) == a + b
  {
    assert e == d[|a|];
    GetEntry(d, e);
    var keep := KeyIsNot(e.key);
    forall x | x in a ensures keep(x) {
      var i :| 0 <= i < |a| && a[i] == x;
      assert d[i] == x;
    }
    forall x | x in b ensures keep(x) {
      var i :| 0 <= i < |b| && b[i] == x;
      assert d[|a| + 1 + i] == x;
    }
    FilterOfSplit(a, e, b, keep);
  }

  /** Filtering out one entry in the middle, when its neighbours all pass. */
  lemma FilterOfSplit(a: seq<Entry>, e: Entry, b: seq<Entry>, keep: Entry -> bool)
    requires forall x :: x in a ==> keep(x)
    requires forall x :: x in b ==> keep(x)
    requires !keep(e)
    ensures Filter(a + [e] + b, keep) == a + b
  {
    FilterKeepsAll(a, keep);
    FilterKeepsAll(b, keep);
    assert Filter([e], keep) == [];
    FilterAppend(a, [e], keep);
    assert Filter(a + [e], keep) == a;
    FilterAppend(a + [e], b, keep);
  }

  lemma {:induction false} FilterAppend(a: seq<Entry>, b: seq<Entry>, keep: Entry -> bool)
    ensures Filter(a + b, keep) == Filter(a, keep) + Filter(b, keep)
    decreases |a|
  {
    if a == [] {
      assert a + b == b;
    } else {
      assert (a + b)[0] == a[0];
      assert (a + b)[1..] == a[1..] + b;
      FilterAppend(a[1..], b, keep);
    }
  }

  lemma {:induction false} FilterKeepsAll(a: seq<Entry>, keep: Entry -> bool)
    requires forall e :: e in a ==> keep(e)
    ensures Filter(a, keep) == a
    decreases |a|
  {
    if a != [] {
      FilterKeepsAll(a[1..], keep);
    }
  }

  /** The last property's name occurs nowhere else in the record. */
  lemma LastKeyOnce(d: Draft)
    requires d != []
    ensures forall j :: 0 <= j < |Keys(d)| - 1 ==> Keys(d)[j] != Keys(d)[|d| - 1]
  {
  }

  /** When `b`'s last element occurs nowhere else in `b`, a subsequence of
      `b` containing it ends with it. */
  lemma {:induction false} LastOfSubsequence<T>(a: seq<T>, b: seq<T>, x: T)
    requires IsSubsequence(a, b) && x in a
    requires b != [] && b[|b| - 1] == x
    requires forall j :: 0 <= j < |b| - 1 ==> b[j] != x
    ensures a != [] && a[|a| - 1] == x
    decreases |b|
  {
    if |b| == 1 {
      if !IsSubsequence(a, b[1..]) {
        assert a[1..] == [];
      }
    } else if IsSubsequence(a, b[1..]) {
      LastOfSubsequence(a, b[1..], x);
    } else {
      assert a[0] == b[0] != x;
      assert x in a[1..];
      LastOfSubsequence(a[1..], b[1..], x);
    }
  }

  lemma IsSubsequenceReflexive<T>(a: seq<T>)
    ensures IsSubsequence(a, a)
    decreases |a|
  {
    if a != [] {
      IsSubsequenceReflexive(a[1..]);
    }
  }

  lemma {:induction false} IsSubsequenceTransitive<T>(a: seq<T>, b: seq<T>, c: seq<T>)
    requires IsSubsequence(a, b) && IsSubsequence(b, c)
    ensures IsSubsequence(a, c)
    decreases |c|
  {
    if a != [] {
      assert b != [] && c != [];
      if IsSubsequence(b, c[1..]) {
        IsSubsequenceTransitive(a, b, c[1..]);
      } else {
        assert b[0] == c[0] && IsSubsequence(b[1..], c[1..]);
        if IsSubsequence(a, b[1..]) {
          IsSubsequenceTransitive(a, b[1..], c[1..]);
        } else {
          assert a[0] == b[0] && IsSubsequence(a[1..], b[1..]);
          IsSubsequenceTransitive(a[1..], b[1..], c[1..]);
        }
      }
    }
  }
}
