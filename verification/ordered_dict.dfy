/**
 * Python's insertion-ordered `dict` of configuration parameters: a sequence
 * of entries with distinct keys. Assigning to an existing key replaces its
 * value where it stands; assigning to a new key appends it.
 */
module OrderedDict {
  import opened Wrappers
  import opened Params

  predicate HasKey(es: seq<Entry>, k: string) {
    exists i :: 0 <= i < |es| && es[i].key == k
  }

  /** A dict never holds the same key twice. */
  predicate KeysDistinct(es: seq<Entry>) {
    forall i, j :: 0 <= i < j < |es| ==> es[i].key != es[j].key
  }

  /** `d.get(k)`. */
  function Lookup(es: seq<Entry>, k: string): (r: Option<Value>)
    ensures r.None? <==> !HasKey(es, k)
  {
    if es == [] then None
    else if es[0].key == k then Some(es[0].value)
    else
      var r := Lookup(es[1..], k);
      assert HasKey(es[1..], k) ==> HasKey(es, k) by {
        if HasKey(es[1..], k) {
          var i :| 0 <= i < |es[1..]| && es[1..][i].key == k;
          assert es[i + 1].key == k;
        }
      }
      r
  }

  /** `d[k] = v`: the key is present afterwards, and the dict grows by one entry exactly when it was new. */
  function Assign(es: seq<Entry>, k: string, v: Value): (r: seq<Entry>)
    ensures HasKey(r, k)
    ensures |r| == if HasKey(es, k) then |es| else |es| + 1
  {
    if es == [] then
      assert [Entry(k, v)][0].key == k;
      [Entry(k, v)]
    else if es[0].key == k then
      assert HasKey([Entry(k, v)] + es[1..], k) by { assert ([Entry(k, v)] + es[1..])[0].key == k; }
      [Entry(k, v)] + es[1..]
    else
      var rest := Assign(es[1..], k, v);
      assert HasKey(es, k) <==> HasKey(es[1..], k) by {
        if HasKey(es, k) {
          var i :| 0 <= i < |es| && es[i].key == k;
          assert es[1..][i - 1].key == k;
        }
        if HasKey(es[1..], k) {
          var i :| 0 <= i < |es[1..]| && es[1..][i].key == k;
          assert es[i + 1].key == k;
        }
      }
      assert HasKey([es[0]] + rest, k) by {
        var i :| 0 <= i < |rest| && rest[i].key == k;
        assert ([es[0]] + rest)[i + 1].key == k;
      }
      [es[0]] + rest
  }

  /** In a dict, the entry at any position is what a lookup of its key finds. */
  lemma {:induction false} LookupAt(es: seq<Entry>, i: int)
    requires KeysDistinct(es) && 0 <= i < |es|
    ensures Lookup(es, es[i].key) == Some(es[i].value)
  {
    if i > 0 {
      LookupAt(es[1..], i - 1);
    }
  }

  /** After `d[k] = v`, `d[k]` is `v` and every other key looks up as before. */
  lemma {:induction false} AssignLookup(es: seq<Entry>, k: string, v: Value, other: string)
    requires other != k
    ensures Lookup(Assign(es, k, v), k) == Some(v)
    ensures Lookup(Assign(es, k, v), other) == Lookup(es, other)
  {
    if es != [] && es[0].key != k {
      AssignLookup(es[1..], k, v, other);
    }
  }

  /** Assigning to a key already present replaces that entry in place and touches nothing else. */
  lemma {:induction false} AssignExisting(es: seq<Entry>, k: string, v: Value, i: int)
    requires KeysDistinct(es) && 0 <= i < |es| && es[i].key == k
    ensures Assign(es, k, v) == es[i := Entry(k, v)]
  {
    if i > 0 {
      AssignExisting(es[1..], k, v, i - 1);
      assert [es[0]] + es[1..][i - 1 := Entry(k, v)] == es[i := Entry(k, v)];
    }
  }

  /** Assigning to a new key appends it after every existing entry. */
  lemma {:induction false} AssignNew(es: seq<Entry>, k: string, v: Value)
    requires !HasKey(es, k)
    ensures Assign(es, k, v) == es + [Entry(k, v)]
  {
    if es != [] {
      AssignNew(es[1..], k, v);
      assert [es[0]] + (es[1..] + [Entry(k, v)]) == es + [Entry(k, v)];
    }
  }

  /** Assignment keeps the keys distinct. */
  lemma AssignDistinct(es: seq<Entry>, k: string, v: Value)
    requires KeysDistinct(es)
    ensures KeysDistinct(Assign(es, k, v))
  {
    if HasKey(es, k) {
      var i :| 0 <= i < |es| && es[i].key == k;
      AssignExisting(es, k, v, i);
    } else {
      AssignNew(es, k, v);
    }
  }

  /** A mutable dict of configuration parameters. */
  class ConfigDict {
    var entries: seq<Entry>

    ghost predicate Valid()
      reads this
    {
      KeysDistinct(entries)
    }

    /** A dict holding the given entries in the given order. */
    constructor (es: seq<Entry>)
      requires KeysDistinct(es)
      ensures Valid() && entries == es
    {
      entries := es;
    }

    /** `self[k] = v`. */
    method Put(k: string, v: Value)
      requires Valid()
      modifies this
      ensures Valid()
      ensures entries == Assign(old(entries), k, v)
    {
      AssignDistinct(entries, k, v);
      entries := Assign(entries, k, v);
    }
  }
}
